/**
 The tokenizer of internal/shellword: one pass over the characters with a current word, an open quote and
 a pending backslash.

 `Run` is that pass as a fold.  Independently of it, a *lexeme* is a blank, a plain character, an escaped
 character or a quoted group; `Words` says what a list of lexemes means without any automaton state.  The
 main results tie the two: `Split` accepts exactly the texts that are lexeme lists, and returns their meaning.
 */
module ShellWord {
  import opened Prelude

  datatype Quote = NoQuote | SingleQuote | DoubleQuote

  datatype Error = Unterminated(quote: Quote) | TrailingBackslash

  datatype State = State(words: seq<string>, cur: string, inWord: bool, quote: Quote, escaped: bool)

  const START := State([], "", false, NoQuote, false)

  predicate IsBlank(c: char) { c == ' ' || c == '\t' || c == '\n' || c == '\r' }

  function Flush(st: State): State {
    st.(words := st.words + [st.cur], cur := "", inWord := false)
  }

  function Step(st: State, c: char): State {
    if st.escaped then st.(cur := st.cur + [c], escaped := false, inWord := true)
    else match st.quote
      case SingleQuote => if c == '\'' then st.(quote := NoQuote) else st.(cur := st.cur + [c])
      case DoubleQuote =>
        if c == '"' then st.(quote := NoQuote)
        else if c == '\\' then st.(escaped := true)
        else st.(cur := st.cur + [c])
      case NoQuote =>
        if c == '\\' then st.(escaped := true, inWord := true)
        else if c == '\'' then st.(quote := SingleQuote, inWord := true)
        else if c == '"' then st.(quote := DoubleQuote, inWord := true)
        else if IsBlank(c) then (if st.inWord then Flush(st) else st)
        else st.(cur := st.cur + [c], inWord := true)
  }

  function Run(st: State, s: string): State
    decreases |s|
  {
    if s == "" then st else Run(Step(st, s[0]), s[1..])
  }

  function Finish(st: State): Result<seq<string>, Error> {
    if st.quote != NoQuote then Err(Unterminated(st.quote))
    else if st.escaped then Err(TrailingBackslash)
    else Ok(if st.inWord then st.words + [st.cur] else st.words)
  }

  function Splitting(s: string): Result<seq<string>, Error> { Finish(Run(START, s)) }

  method Split(s: string) returns (r: Result<seq<string>, Error>)
    ensures r == Splitting(s)
  {
    var words: seq<string>, cur: string, inWord, quote, escaped := [], "", false, NoQuote, false;
    for i := 0 to |s|
      invariant Run(START, s) == Run(State(words, cur, inWord, quote, escaped), s[i..])
    {
      var c := s[i];
      if escaped {
        cur, escaped, inWord := cur + [c], false, true;
      } else if quote == SingleQuote {
        if c == '\'' { quote := NoQuote; } else { cur := cur + [c]; }
      } else if quote == DoubleQuote {
        if c == '"' { quote := NoQuote; }
        else if c == '\\' { escaped := true; }
        else { cur := cur + [c]; }
      } else if c == '\\' {
        escaped, inWord := true, true;
      } else if c == '\'' || c == '"' {
        quote, inWord := if c == '\'' then SingleQuote else DoubleQuote, true;
      } else if IsBlank(c) {
        if inWord { words, cur, inWord := words + [cur], "", false; }
      } else {
        cur, inWord := cur + [c], true;
      }
    }
    if quote != NoQuote {
      return Err(Unterminated(quote));
    }
    if escaped {
      return Err(TrailingBackslash);
    }
    if inWord {
      words := words + [cur];
    }
    return Ok(words);
  }

  // ---- what a command line means, without an automaton ----

  datatype InDouble = Raw(c: char) | Slashed(c: char)

  datatype Lexeme =
    | Blank(c: char)
    | Plain(c: char)
    | Escape(c: char)
    | Single(body: string)
    | Double(parts: seq<InDouble>)

  ghost predicate ValidLexeme(l: Lexeme) {
    match l
    case Blank(c) => IsBlank(c)
    case Plain(c) => !IsBlank(c) && c != '\\' && c != '\'' && c != '"'
    case Escape(_) => true
    case Single(body) => '\'' !in body
    case Double(parts) => forall p :: p in parts ==> p.Raw? ==> p.c != '"' && p.c != '\\'
  }

  ghost predicate Valid(ls: seq<Lexeme>) {
    forall l :: l in ls ==> ValidLexeme(l)
  }

  function PartsText(parts: seq<InDouble>): string {
    if parts == [] then "" else (if parts[0].Raw? then [parts[0].c] else ['\\', parts[0].c]) + PartsText(parts[1..])
  }

  function PartsMeaning(parts: seq<InDouble>): string {
    seq(|parts|, i requires 0 <= i < |parts| => parts[i].c)
  }

  function LexemeText(l: Lexeme): string {
    match l
    case Blank(c) => [c]
    case Plain(c) => [c]
    case Escape(c) => ['\\', c]
    case Single(body) => "'" + body + "'"
    case Double(parts) => "\"" + PartsText(parts) + "\""
  }

  function Text(ls: seq<Lexeme>): string {
    if ls == [] then "" else LexemeText(ls[0]) + Text(ls[1..])
  }

  /** What one non-blank lexeme contributes to its word. */
  function Meaning(l: Lexeme): string
    requires !l.Blank?
  {
    match l
    case Plain(c) => [c]
    case Escape(c) => [c]
    case Single(body) => body
    case Double(parts) => PartsMeaning(parts)
  }

  /** How many lexemes the first word spans. */
  function WordLength(ls: seq<Lexeme>): (n: nat)
    ensures n <= |ls| && (forall i :: 0 <= i < n ==> !ls[i].Blank?) && (n < |ls| ==> ls[n].Blank?)
  {
    if ls == [] || ls[0].Blank? then 0 else 1 + WordLength(ls[1..])
  }

  function Glued(ls: seq<Lexeme>): string
    requires forall l :: l in ls ==> !l.Blank?
  {
    if ls == [] then "" else Meaning(ls[0]) + Glued(ls[1..])
  }

  /** The words of a line: blanks separate, every maximal run of other lexemes is one word. */
  function Words(ls: seq<Lexeme>): seq<string>
    decreases |ls|
  {
    if ls == [] then []
    else if ls[0].Blank? then Words(ls[1..])
    else
      var n := WordLength(ls);
      [Glued(ls[..n])] + Words(ls[n..])
  }

  // ---- the automaton computes that meaning ----

  lemma {:induction false} RunAppend(st: State, a: string, b: string)
    ensures Run(st, a + b) == Run(Run(st, a), b)
    decreases |a|
  {
    if a == "" {
      assert a + b == b;
    } else {
      assert (a + b)[1..] == a[1..] + b;
      RunAppend(Step(st, a[0]), a[1..], b);
    }
  }

  predicate Ready(st: State) { st.quote == NoQuote && !st.escaped }

  lemma {:induction false} RunSingle(st: State, body: string)
    requires st.quote == SingleQuote && !st.escaped && '\'' !in body
    ensures Run(st, body) == st.(cur := st.cur + body)
    decreases |body|
  {
    if body == "" {
      assert st.cur + body == st.cur;
    } else {
      RunSingle(Step(st, body[0]), body[1..]);
      assert st.cur + [body[0]] + body[1..] == st.cur + body;
    }
  }

  lemma {:induction false} RunParts(st: State, parts: seq<InDouble>)
    requires st.quote == DoubleQuote && !st.escaped && st.inWord && ValidLexeme(Double(parts))
    ensures Run(st, PartsText(parts)) == st.(cur := st.cur + PartsMeaning(parts))
    decreases |parts|
  {
    if parts == [] {
      assert st.cur + PartsMeaning(parts) == st.cur;
    } else {
      var p, rest := parts[0], parts[1..];
      var head := if p.Raw? then [p.c] else ['\\', p.c];
      RunShort(st, head);
      RunAppend(st, head, PartsText(rest));
      RunParts(Run(st, head), rest);
      assert st.cur + [p.c] + PartsMeaning(rest) == st.cur + PartsMeaning(parts);
    }
  }

  lemma RunShort(st: State, s: string)
    requires 1 <= |s| <= 2
    ensures Run(st, s) == if |s| == 1 then Step(st, s[0]) else Step(Step(st, s[0]), s[1])
  {
    if |s| == 2 { assert Run(Step(st, s[0]), s[1..]) == Step(Step(st, s[0]), s[1]); }
  }

  /** From outside quotes, a lexeme's text takes the automaton outside quotes again, one lexeme further. */
  lemma RunLexeme(st: State, l: Lexeme)
    requires Ready(st) && ValidLexeme(l)
    ensures Run(st, LexemeText(l)) ==
            if l.Blank? then (if st.inWord then Flush(st) else st) else st.(cur := st.cur + Meaning(l), inWord := true)
  {
    match l
    case Blank(c) => RunShort(st, [c]);
    case Plain(c) => RunShort(st, [c]);
    case Escape(c) => RunShort(st, ['\\', c]);
    case Single(body) =>
      RunSingle(Step(st, '\''), body);
      RunAppend(Step(st, '\''), body, "'");
      RunShort(Run(Step(st, '\''), body), "'");
      assert ("'" + body + "'")[1..] == body + "'";
    case Double(parts) =>
      var inside := Step(st, '"');
      RunParts(inside, parts);
      RunAppend(inside, PartsText(parts), "\"");
      RunShort(Run(inside, PartsText(parts)), "\"");
      assert ("\"" + PartsText(parts) + "\"")[1..] == PartsText(parts) + "\"";
  }

  /** What the automaton still owes: the words it has, then the open word glued to the lexemes ahead. */
  function Owed(st: State, ls: seq<Lexeme>): seq<string> {
    if !st.inWord then st.words + Words(ls)
    else
      var n := WordLength(ls);
      st.words + [st.cur + Glued(ls[..n])] + Words(ls[n..])
  }

  lemma {:induction false} RunText(st: State, ls: seq<Lexeme>)
    requires Ready(st) && Valid(ls) && (st.inWord || st.cur == "")
    ensures Finish(Run(st, Text(ls))) == Ok(Owed(st, ls))
    decreases |ls|
  {
    if ls == [] {
      assert ls[..0] == [] && st.cur + Glued([]) == st.cur;
      assert st.words + Words([]) == st.words && st.words + [st.cur] + [] == st.words + [st.cur];
    } else {
      var l, rest := ls[0], ls[1..];
      RunLexeme(st, l);
      RunAppend(st, LexemeText(l), Text(rest));
      RunText(Run(st, LexemeText(l)), rest);
      OwedStep(st, l, rest);
      assert [l] + rest == ls;
    }
  }

  lemma OwedStep(st: State, l: Lexeme, rest: seq<Lexeme>)
    requires Ready(st) && (st.inWord || st.cur == "")
    ensures Owed(st, [l] + rest) == Owed(
              if l.Blank? then (if st.inWord then Flush(st) else st) else st.(cur := st.cur + Meaning(l), inWord := true), rest)
  {
    var ls := [l] + rest;
    assert ls[1..] == rest;
    var n := WordLength(ls);
    if l.Blank? {
      assert ls[..0] == [] && ls[0..] == ls;
      assert st.cur + Glued([]) == st.cur;
    } else {
      var m := WordLength(rest);
      assert n == 1 + m && ls[..n][1..] == rest[..m] && ls[n..] == rest[m..];
      assert st.cur + Meaning(l) + Glued(rest[..m]) == st.cur + Glued(ls[..n]);
      assert !st.inWord ==> st.cur + Glued(ls[..n]) == Glued(ls[..n]);
    }
  }

  /** Every valid way of writing a line down is read back as what it means. */
  lemma SplitMeansWords(ls: seq<Lexeme>)
    requires Valid(ls)
    ensures Splitting(Text(ls)) == Ok(Words(ls))
  {
    RunText(START, ls);
    assert [] + Words(ls) == Words(ls);
  }

  // ---- and every text it accepts is such a line ----

  /** The text of a line whose last lexeme may still be open, as the automaton state remembers it. */
  datatype Open = Closed | AfterSlash | InSingle(body: string) | InDoubleOpen(parts: seq<InDouble>, slash: bool)

  ghost function OpenText(o: Open): string {
    match o
    case Closed => ""
    case AfterSlash => "\\"
    case InSingle(body) => "'" + body
    case InDoubleOpen(parts, slash) => "\"" + PartsText(parts) + (if slash then "\\" else "")
  }

  ghost predicate Matches(o: Open, st: State) {
    match o
    case Closed => st.quote == NoQuote && !st.escaped
    case AfterSlash => st.quote == NoQuote && st.escaped
    case InSingle(body) => st.quote == SingleQuote && !st.escaped && ValidLexeme(Single(body))
    case InDoubleOpen(parts, slash) => st.quote == DoubleQuote && st.escaped == slash && ValidLexeme(Double(parts))
  }

  lemma {:induction false} TextAppend(a: seq<Lexeme>, b: seq<Lexeme>)
    ensures Text(a + b) == Text(a) + Text(b)
  {
    if a == [] {
      assert a + b == b;
    } else {
      assert (a + b)[1..] == a[1..] + b;
      TextAppend(a[1..], b);
    }
  }

  lemma {:induction false} PartsAppend(a: seq<InDouble>, p: InDouble)
    ensures PartsText(a + [p]) == PartsText(a) + (if p.Raw? then [p.c] else ['\\', p.c])
  {
    if a == [] {
      assert a + [p] == [p];
    } else {
      assert (a + [p])[1..] == a[1..] + [p];
      PartsAppend(a[1..], p);
    }
  }

  /** One more character keeps the decomposition: it extends the open lexeme, closes it, or starts one. */
  lemma Advance(st: State, ls: seq<Lexeme>, o: Open, c: char) returns (ls': seq<Lexeme>, o': Open)
    requires Valid(ls) && Matches(o, st)
    ensures Valid(ls') && Matches(o', Step(st, c))
    ensures Text(ls') + OpenText(o') == Text(ls) + OpenText(o) + [c]
  {
    hide Valid, Text, IsBlank;
    ls', o' := ls, Closed;
    match o {
      case Closed =>
        if c == '\\' { o' := AfterSlash; }
        else if c == '\'' { o' := InSingle(""); }
        else if c == '"' { o' := InDoubleOpen([], false); }
        else { ls' := Push(ls, if IsBlank(c) then Blank(c) else Plain(c)); }
      case AfterSlash => ls' := Push(ls, Escape(c));
      case InSingle(body) =>
        if c == '\'' { ls' := Push(ls, Single(body)); } else { o' := InSingle(body + [c]); }
      case InDoubleOpen(parts, slash) =>
        PartsAppend(parts, if slash then Slashed(c) else Raw(c));
        if slash { o' := InDoubleOpen(parts + [Slashed(c)], false); }
        else if c == '"' { ls' := Push(ls, Double(parts)); }
        else if c == '\\' { o' := InDoubleOpen(parts, true); }
        else { o' := InDoubleOpen(parts + [Raw(c)], false); }
    }
  }

  lemma Push(ls: seq<Lexeme>, l: Lexeme) returns (ls': seq<Lexeme>)
    requires Valid(ls) && ValidLexeme(l)
    ensures Valid(ls') && Text(ls') == Text(ls) + LexemeText(l)
  {
    ls' := ls + [l];
    TextAppend(ls, [l]);
    assert Text([l]) == LexemeText(l) + Text([l][1..]);
  }

  lemma {:induction false} Decompose(s: string) returns (ls: seq<Lexeme>, o: Open)
    ensures Valid(ls) && Matches(o, Run(START, s)) && Text(ls) + OpenText(o) == s
    decreases |s|
  {
    if s == "" {
      ls, o := [], Closed;
    } else {
      var front, c := s[..|s| - 1], s[|s| - 1];
      var ls0, o0 := Decompose(front);
      RunAppend(START, front, [c]);
      RunShort(Run(START, front), [c]);
      assert front + [c] == s;
      ls, o := Advance(Run(START, front), ls0, o0, c);
    }
  }

  ghost predicate WritesDown(ls: seq<Lexeme>, s: string) { Valid(ls) && Text(ls) == s }

  /** `Split` succeeds exactly on the texts of lexeme lists; it then returns what the list means. */
  lemma AcceptsExactlyLines(s: string)
    ensures Splitting(s).Ok? <==> exists ls :: WritesDown(ls, s)
    ensures forall ls :: WritesDown(ls, s) ==> Splitting(s) == Ok(Words(ls))
  {
    var ls, o := Decompose(s);
    if Splitting(s).Ok? {
      assert o == Closed && Text(ls) + "" == Text(ls);
      assert WritesDown(ls, s);
    }
    forall ls | WritesDown(ls, s) ensures Splitting(s) == Ok(Words(ls)) { SplitMeansWords(ls); }
  }

  ghost predicate BreaksOff(ls: seq<Lexeme>, o: Open, s: string) {
    Valid(ls) && ValidOpen(o) && Text(ls) + OpenText(o) == s
  }

  /** An unfinished last lexeme. */
  ghost predicate ValidOpen(o: Open) {
    match o
    case Closed => false
    case AfterSlash => true
    case InSingle(body) => ValidLexeme(Single(body))
    case InDoubleOpen(parts, _) => ValidLexeme(Double(parts))
  }

  ghost function ErrorOf(o: Open): Error {
    match o
    case InSingle(_) => Unterminated(SingleQuote)
    case InDoubleOpen(_, _) => Unterminated(DoubleQuote)
    case _ => TrailingBackslash
  }

  lemma OpenLineErrs(ls: seq<Lexeme>, o: Open, s: string)
    requires BreaksOff(ls, o, s)
    ensures Splitting(s) == Err(ErrorOf(o))
  {
    RunText(START, ls);
    RunAppend(START, Text(ls), OpenText(o));
    var st := Run(START, Text(ls));
    match o {
      case AfterSlash => RunShort(st, "\\");
      case InSingle(body) =>
        RunSingle(Step(st, '\''), body);
        assert ("'" + body)[1..] == body;
      case InDoubleOpen(parts, slash) =>
        var inside, tail := Step(st, '"'), if slash then "\\" else "";
        RunParts(inside, parts);
        RunAppend(inside, PartsText(parts), tail);
        if slash { RunShort(Run(inside, PartsText(parts)), tail); }
        assert OpenText(o)[1..] == PartsText(parts) + tail;
    }
  }

  /** It fails exactly on the texts that break off inside a quoted group or after a backslash, and says which. */
  lemma RejectsExactlyBrokenLines(s: string, e: Error)
    ensures Splitting(s) == Err(e) <==> exists ls, o :: BreaksOff(ls, o, s) && ErrorOf(o) == e
  {
    if Splitting(s).Err? {
      var ls, o := Decompose(s);
      assert o != Closed && BreaksOff(ls, o, s);
      OpenLineErrs(ls, o, s);
    }
    forall ls, o | BreaksOff(ls, o, s) ensures Splitting(s) == Err(ErrorOf(o)) { OpenLineErrs(ls, o, s); }
  }

  // ---- splitting inverts quoting ----

  /** A word in single quotes, an embedded single quote written '\''. */
  function SingleQuoted(w: string): seq<Lexeme> {
    if '\'' !in w then [Single(w)]
    else
      var i := IndexOf(w, '\'');
      [Single(w[..i]), Escape('\'')] + SingleQuoted(w[i + 1..])
  }

  function IndexOf(w: string, c: char): (i: nat)
    requires c in w
    ensures i < |w| && w[i] == c && c !in w[..i]
  {
    if w[0] == c then 0 else 1 + IndexOf(w[1..], c)
  }

  /** A word in double quotes, with `"` and `\` escaped. */
  function DoubleQuoted(w: string): seq<Lexeme> {
    [Double(seq(|w|, i requires 0 <= i < |w| => if w[i] == '"' || w[i] == '\\' then Slashed(w[i]) else Raw(w[i])))]
  }

  /** One word written by either printer, chosen word by word. */
  function Quoted(w: string, single: bool): seq<Lexeme> {
    if single then SingleQuoted(w) else DoubleQuoted(w)
  }

  /** The quoted words with one space between neighbours. */
  function QuotedLine(ws: seq<string>, single: seq<bool>): seq<Lexeme>
    requires |ws| == |single|
  {
    if ws == [] then []
    else Quoted(ws[0], single[0]) + (if |ws| == 1 then [] else [Blank(' ')] + QuotedLine(ws[1..], single[1..]))
  }

  lemma {:induction false} GluedAppend(a: seq<Lexeme>, b: seq<Lexeme>)
    requires forall l :: l in a + b ==> !l.Blank?
    ensures (forall l :: l in a ==> !l.Blank?) && (forall l :: l in b ==> !l.Blank?)
    ensures Glued(a + b) == Glued(a) + Glued(b)
  {
    forall l | l in a || l in b ensures l in a + b {}
    if a == [] {
      assert a + b == b;
    } else {
      assert (a + b)[1..] == a[1..] + b;
      GluedAppend(a[1..], b);
    }
  }

  /** The lexemes form one word that means `w`. */
  ghost predicate OneWord(ls: seq<Lexeme>, w: string) {
    |ls| > 0 && Valid(ls) && (forall l :: l in ls ==> !l.Blank?) && Glued(ls) == w
  }

  lemma GluedOne(l: Lexeme)
    requires ValidLexeme(l) && !l.Blank?
    ensures OneWord([l], Meaning(l))
  {
    assert Glued([l]) == Meaning(l) + Glued([l][1..]);
  }

  lemma DoubleQuotedIsOneWord(w: string)
    ensures OneWord(DoubleQuoted(w), w)
  {
    var l := DoubleQuoted(w)[0];
    GluedOne(l);
    assert PartsMeaning(l.parts) == w;
  }

  lemma OneWordAppend(a: seq<Lexeme>, b: seq<Lexeme>, v: string, w: string)
    requires OneWord(a, v) && OneWord(b, w)
    ensures OneWord(a + b, v + w)
  {
    hide Glued, ValidLexeme;
    GluedAppend(a, b);
  }

  lemma {:induction false} SingleQuotedIsOneWord(w: string)
    ensures OneWord(SingleQuoted(w), w)
    decreases |w|
  {
    hide OneWord, Glued, Valid, Meaning;
    if '\'' !in w {
      PieceIsOneWord(Single(w), w);
    } else {
      var i := IndexOf(w, '\'');
      var a, b, rest := [Single(w[..i])], [Escape('\'')], w[i + 1..];
      PieceIsOneWord(Single(w[..i]), w[..i]);
      PieceIsOneWord(Escape('\''), "'");
      SingleQuotedIsOneWord(rest);
      OneWordAppend(a, b, w[..i], "'");
      OneWordAppend(a + b, SingleQuoted(rest), w[..i] + "'", rest);
      assert SingleQuoted(w) == a + b + SingleQuoted(rest);
      assert w == w[..i] + "'" + rest;
    }
  }

  lemma PieceIsOneWord(l: Lexeme, w: string)
    requires (l == Single(w) && '\'' !in w) || (|w| == 1 && l == Escape(w[0]))
    ensures OneWord([l], w)
  {
    GluedOne(l);
  }

  lemma {:induction false} WordsOfQuotedLine(ws: seq<string>, single: seq<bool>)
    requires |ws| == |single|
    ensures Valid(QuotedLine(ws, single)) && Words(QuotedLine(ws, single)) == ws
  {
    hide Words, Glued, Quoted, ValidLexeme;
    AfterBlank([]);
    if ws != [] {
      var first, rest := Quoted(ws[0], single[0]), QuotedLine(ws[1..], single[1..]);
      QuotedIsOneWord(ws[0], single[0]);
      WordsOfQuotedLine(ws[1..], single[1..]);
      AfterBlank(rest);
      FirstWord(first, if |ws| == 1 then [] else [Blank(' ')] + rest);
      assert [ws[0]] + ws[1..] == ws;
    }
  }

  lemma QuotedIsOneWord(w: string, single: bool)
    ensures OneWord(Quoted(w, single), w)
  {
    if single { SingleQuotedIsOneWord(w); } else { DoubleQuotedIsOneWord(w); }
  }

  lemma AfterBlank(ls: seq<Lexeme>)
    requires Valid(ls)
    ensures Valid([Blank(' ')] + ls) && Words([Blank(' ')] + ls) == Words(ls) && Words([]) == []
  {
    assert ([Blank(' ')] + ls)[1..] == ls;
  }

  lemma {:induction false} FirstWord(word: seq<Lexeme>, tail: seq<Lexeme>)
    requires (forall l :: l in word ==> !l.Blank?) && (tail == [] || tail[0].Blank?)
    ensures WordLength(word + tail) == |word|
    ensures |word| > 0 ==> Words(word + tail) == [Glued(word)] + Words(tail)
  {
    if word != [] {
      assert (word + tail)[1..] == word[1..] + tail;
      FirstWord(word[1..], tail);
      assert (word + tail)[..|word|] == word && (word + tail)[|word|..] == tail;
    } else {
      assert word + tail == tail;
    }
  }

  /** Quoting any list of words, single or double quotes word by word, and splitting gives the list back. */
  lemma SplitInvertsQuoting(ws: seq<string>, single: seq<bool>)
    requires |ws| == |single|
    ensures Splitting(Text(QuotedLine(ws, single))) == Ok(ws)
  {
    WordsOfQuotedLine(ws, single);
    SplitMeansWords(QuotedLine(ws, single));
  }

  // ---- splitting is compositional ----

  ghost predicate Blanks(w: string) { forall c :: c in w ==> IsBlank(c) }

  lemma {:induction false} RunWithWords(ws: seq<string>, st: State, s: string)
    ensures Run(st.(words := ws + st.words), s) == Run(st, s).(words := ws + Run(st, s).words)
    decreases |s|
  {
    if s != "" {
      var next := Step(st, s[0]);
      assert ws + (st.words + [st.cur]) == ws + st.words + [st.cur];
      assert Step(st.(words := ws + st.words), s[0]) == next.(words := ws + next.words);
      RunWithWords(ws, next, s[1..]);
    }
  }

  lemma {:induction false} WordStateInvariant(s: string)
    ensures var st := Run(START, s); !st.inWord ==> st.cur == ""
    decreases |s|
  {
    if s != "" {
      var front := s[..|s| - 1];
      WordStateInvariant(front);
      QuoteMeansWord(front);
      RunAppend(START, front, [s[|s| - 1]]);
      RunShort(Run(START, front), [s[|s| - 1]]);
      assert front + [s[|s| - 1]] == s;
    }
  }

  lemma {:induction false} QuoteMeansWord(s: string)
    ensures var st := Run(START, s); st.quote != NoQuote ==> st.inWord
    decreases |s|
  {
    if s != "" {
      var front := s[..|s| - 1];
      QuoteMeansWord(front);
      RunAppend(START, front, [s[|s| - 1]]);
      RunShort(Run(START, front), [s[|s| - 1]]);
      assert front + [s[|s| - 1]] == s;
    }
  }

  lemma {:induction false} RunBlanks(st: State, w: string)
    requires Ready(st) && Blanks(w) && w != "" && (!st.inWord ==> st.cur == "")
    ensures Run(st, w) == START.(words := Finish(st).value)
    decreases |w|
  {
    assert w[0] in w;
    var next := Step(st, w[0]);
    if |w| > 1 { RunBlanks(next, w[1..]); }
  }

  /** After a complete line and at least one blank, the rest is split as if it stood alone. */
  lemma SplitIsCompositional(a: string, w: string, b: string)
    requires Splitting(a).Ok? && w != "" && forall c :: c in w ==> c == ' ' || c == '\t' || c == '\n' || c == '\r'
    ensures Splitting(a + w + b) ==
            match Splitting(b) case Ok(words) => Ok(Splitting(a).value + words) case Err(e) => Err(e)
  {
    var done := Splitting(a).value;
    WordStateInvariant(a);
    RunAppend(START, a, w);
    RunAppend(START, a + w, b);
    RunBlanks(Run(START, a), w);
    RunWithWords(done, START, b);
    assert done + START.words == done;
    var st := Run(START, b);
    assert done + (st.words + [st.cur]) == done + st.words + [st.cur];
  }

  // ---- unquoted input ----

  function Unquoted(s: string): seq<Lexeme> {
    seq(|s|, i requires 0 <= i < |s| => if IsBlank(s[i]) then Blank(s[i]) else Plain(s[i]))
  }

  function Concat(ws: seq<string>): string {
    if ws == [] then "" else ws[0] + Concat(ws[1..])
  }

  function WithoutBlanks(s: string): string {
    if s == "" then "" else (if IsBlank(s[0]) then "" else [s[0]]) + WithoutBlanks(s[1..])
  }

  lemma {:induction false} UnquotedText(s: string)
    ensures Text(Unquoted(s)) == s
  {
    if s != "" {
      assert Unquoted(s)[1..] == Unquoted(s[1..]);
      UnquotedText(s[1..]);
    }
  }

  lemma {:induction false} GluedUnquoted(s: string)
    requires forall c :: c in s ==> !IsBlank(c)
    ensures Glued(Unquoted(s)) == s && WithoutBlanks(s) == s
  {
    if s != "" {
      assert Unquoted(s)[1..] == Unquoted(s[1..]);
      GluedUnquoted(s[1..]);
    }
  }

  lemma {:induction false} WithoutBlanksAppend(a: string, b: string)
    ensures WithoutBlanks(a + b) == WithoutBlanks(a) + WithoutBlanks(b)
  {
    if a == "" {
      assert a + b == b;
    } else {
      assert (a + b)[1..] == a[1..] + b;
      WithoutBlanksAppend(a[1..], b);
    }
  }

  lemma {:induction false} UnquotedWords(s: string)
    ensures var ws := Words(Unquoted(s));
            (forall w :: w in ws ==> w != "" && forall c :: c in w ==> !IsBlank(c)) && Concat(ws) == WithoutBlanks(s)
    decreases |s|
  {
    if s != "" {
      var ls := Unquoted(s);
      if IsBlank(s[0]) {
        assert ls[1..] == Unquoted(s[1..]);
        UnquotedWords(s[1..]);
      } else {
        var n := WordLength(ls);
        assert ls[..n] == Unquoted(s[..n]) && ls[n..] == Unquoted(s[n..]);
        forall c | c in s[..n] ensures !IsBlank(c) { var i :| 0 <= i < n && s[i] == c; assert !ls[i].Blank?; }
        GluedUnquoted(s[..n]);
        UnquotedWords(s[n..]);
        WithoutBlanksAppend(s[..n], s[n..]);
        assert s[..n] + s[n..] == s;
        assert Words(ls) == [s[..n]] + Words(ls[n..]);
        assert Words(ls)[1..] == Words(ls[n..]);
      }
    }
  }

  /** Without quotes and backslashes the words are nonempty, blank-free, and together are the input minus blanks. */
  lemma SplitUnquoted(s: string)
    requires '\\' !in s && '\'' !in s && '"' !in s
    ensures Splitting(s).Ok?
    ensures forall w :: w in Splitting(s).value ==> w != "" && forall c :: c in w ==> !IsBlank(c)
    ensures Concat(Splitting(s).value) == WithoutBlanks(s)
  {
    UnquotedText(s);
    SplitMeansWords(Unquoted(s));
    UnquotedWords(s);
  }

  /** Of all characters without a quoting role, just space, tab, line feed and carriage return separate words. */
  lemma FourSeparators(c: char)
    requires c != '\\' && c != '\'' && c != '"'
    ensures Splitting("a" + [c] + "b") ==
            Ok(if c == ' ' || c == '\t' || c == '\n' || c == '\r' then ["a", "b"] else ["a" + [c] + "b"])
  {
    var s := "a" + [c] + "b";
    var one, last := State([], "a", true, NoQuote, false), Step(Step(START, 'a'), c);
    assert s[1..] == [c] + "b" && s[1..][1..] == "b" && "b"[1..] == "" && "" + ['a'] == "a";
    assert Step(START, 'a') == one && Run(START, s) == Run(last, "b") == Step(last, 'b');
    if IsBlank(c) {
      assert last == State([] + ["a"], "", false, NoQuote, false) && [] + ["a"] == ["a"] && "" + ['b'] == "b";
      assert ["a"] + ["b"] == ["a", "b"];
    } else {
      assert last == State([], "a" + [c], true, NoQuote, false) && "a" + [c] + ['b'] == s;
      assert [] + [s] == [s];
    }
  }
}
