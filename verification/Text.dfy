/** The string functions of the Go standard library that several of the modelled packages rely on. */
module Text {

  /** `unicode.IsSpace` */
  predicate IsSpace(c: char) {
    || '\t' <= c <= '\r' || c == ' ' || c == '\U{85}' || c == '\U{A0}' || c == '\U{1680}'
    || '\U{2000}' <= c <= '\U{200A}' || c == '\U{2028}' || c == '\U{2029}' || c == '\U{202F}'
    || c == '\U{205F}' || c == '\U{3000}'
  }

  function TrimLeft(s: string): string {
    if s != "" && IsSpace(s[0]) then TrimLeft(s[1..]) else s
  }

  function TrimRight(s: string): string {
    if s != "" && IsSpace(s[|s| - 1]) then TrimRight(s[..|s| - 1]) else s
  }

  /** `strings.TrimSpace` */
  function TrimSpace(s: string): string { TrimRight(TrimLeft(s)) }

  ghost predicate Trimmed(s: string) {
    s != "" ==> !IsSpace(s[0]) && !IsSpace(s[|s| - 1])
  }

  lemma {:induction false} TrimRightKeepsHead(s: string)
    ensures TrimRight(s) <= s
    ensures TrimRight(s) != "" ==> !IsSpace(TrimRight(s)[|TrimRight(s)| - 1])
  {
    if s != "" && IsSpace(s[|s| - 1]) { TrimRightKeepsHead(s[..|s| - 1]); }
  }

  lemma {:induction false} TrimLeftStarts(s: string)
    ensures TrimLeft(s) != "" ==> !IsSpace(TrimLeft(s)[0])
    ensures forall c :: c in TrimLeft(s) ==> c in s
  {
    if s != "" && IsSpace(s[0]) { TrimLeftStarts(s[1..]); }
  }

  lemma TrimSpaceIsTrimmed(s: string)
    ensures Trimmed(TrimSpace(s))
    ensures forall c :: c in TrimSpace(s) ==> c in s
  {
    TrimLeftStarts(s);
    TrimRightKeepsHead(TrimLeft(s));
  }

  /** Only spaces are cut off, and all of them at both ends. */
  lemma TrimSpaceCutsSpaces(s: string) returns (before: string, after: string)
    ensures s == before + TrimSpace(s) + after && Trimmed(TrimSpace(s))
    ensures forall c :: c in before + after ==> IsSpace(c)
    ensures forall c :: c < '\U{80}' ==> (IsSpace(c) <==> c in ['\t', '\n', '\U{0B}', '\U{0C}', '\r', ' '])
  {
    AsciiSpaces();
    hide IsSpace;
    TrimSpaceIsTrimmed(s);
    before := TrimLeftCuts(s);
    after := TrimRightCuts(TrimLeft(s));
    assert s == before + (TrimSpace(s) + after);
  }

  lemma AsciiSpaces()
    ensures forall c :: c < '\U{80}' ==> (IsSpace(c) <==> c in ['\t', '\n', '\U{0B}', '\U{0C}', '\r', ' '])
  {
  }

  lemma {:induction false} TrimLeftCuts(s: string) returns (before: string)
    ensures s == before + TrimLeft(s) && forall c :: c in before ==> IsSpace(c)
  {
    hide IsSpace;
    if s != "" && IsSpace(s[0]) {
      before := TrimLeftCuts(s[1..]);
      before := [s[0]] + before;
      assert s == [s[0]] + s[1..];
    } else {
      before := "";
    }
  }

  lemma {:induction false} TrimRightCuts(s: string) returns (after: string)
    ensures s == TrimRight(s) + after && forall c :: c in after ==> IsSpace(c)
  {
    hide IsSpace;
    if s != "" && IsSpace(s[|s| - 1]) {
      var n := |s| - 1;
      after := TrimRightCuts(s[..n]);
      after := after + [s[n]];
      assert s == s[..n] + [s[n]];
    } else {
      after := "";
    }
  }

  lemma TrimmedStays(s: string)
    requires Trimmed(s)
    ensures TrimSpace(s) == s
  {
  }

  /** The part before the first `c`, or all of it. */
  function Before(s: string, c: char): (r: string)
    ensures r <= s && c !in r && (|r| < |s| ==> s[|r|] == c)
  {
    if s == "" || s[0] == c then "" else [s[0]] + Before(s[1..], c)
  }

  lemma {:induction false} BeforeFirst(a: string, c: char, b: string)
    requires c !in a
    ensures Before(a + [c] + b, c) == a && Before(a, c) == a
  {
    if a != "" {
      assert (a + [c] + b)[1..] == a[1..] + [c] + b;
      BeforeFirst(a[1..], c, b);
    }
  }

  /** `strings.Split` by one character: never empty, and the pieces contain no separator. */
  function SplitOn(s: string, c: char): (parts: seq<string>)
    ensures parts != []
    decreases |s|
  {
    var head := Before(s, c);
    if |head| == |s| then [s] else [head] + SplitOn(s[|head| + 1..], c)
  }

  function Join(parts: seq<string>, c: char): string
    requires parts != []
  {
    if |parts| == 1 then parts[0] else parts[0] + [c] + Join(parts[1..], c)
  }

  lemma {:induction false} SplitFirst(a: string, c: char, b: string)
    requires c !in a
    ensures SplitOn(a + [c] + b, c) == [a] + SplitOn(b, c) && SplitOn(a, c) == [a]
  {
    BeforeFirst(a, c, b);
    assert (a + [c] + b)[|a| + 1..] == b;
  }

  lemma {:induction false} SplitConcat(a: string, c: char, b: string)
    ensures SplitOn(a + [c] + b, c) == SplitOn(a, c) + SplitOn(b, c)
    decreases |a|
  {
    hide SplitOn, Before;
    var head := Before(a, c);
    if |head| == |a| {
      assert head == a;
      SplitFirst(a, c, b);
    } else {
      var rest := a[|head| + 1..];
      assert a == head + [c] + rest;
      assert a + [c] + b == head + [c] + (rest + [c] + b);
      SplitFirst(head, c, rest + [c] + b);
      SplitFirst(head, c, rest);
      SplitConcat(rest, c, b);
      assert [head] + (SplitOn(rest, c) + SplitOn(b, c)) == [head] + SplitOn(rest, c) + SplitOn(b, c);
    }
  }

  lemma {:induction false} JoinSplit(s: string, c: char)
    ensures Join(SplitOn(s, c), c) == s
    decreases |s|
  {
    var head := Before(s, c);
    if |head| < |s| {
      var rest := s[|head| + 1..];
      JoinSplit(rest, c);
      assert SplitOn(s, c)[1..] == SplitOn(rest, c);
      assert s == head + [c] + rest;
    }
  }

  lemma {:induction false} SplitPieces(s: string, c: char)
    ensures forall p :: p in SplitOn(s, c) ==> c !in p
    decreases |s|
  {
    var head := Before(s, c);
    if |head| < |s| { SplitPieces(s[|head| + 1..], c); }
  }

  lemma {:induction false} SplitJoin(parts: seq<string>, c: char)
    requires parts != [] && forall p :: p in parts ==> c !in p
    ensures SplitOn(Join(parts, c), c) == parts
  {
    hide SplitOn;
    if |parts| == 1 {
      SplitFirst(parts[0], c, "");
    } else {
      SplitJoin(parts[1..], c);
      SplitFirst(parts[0], c, Join(parts[1..], c));
      assert parts == [parts[0]] + parts[1..];
    }
  }

  lemma {:induction false} JoinConcat(a: seq<string>, b: seq<string>, c: char)
    requires a != [] && b != []
    ensures Join(a + b, c) == Join(a, c) + [c] + Join(b, c)
  {
    assert (a + b)[1..] == a[1..] + b;
    if |a| > 1 {
      JoinConcat(a[1..], b, c);
    } else {
      assert a[1..] + b == b;
    }
  }

  /** The leading run of characters that are (or are not) spaces. */
  function Span(s: string, space: bool): (n: nat)
    ensures n <= |s| && (forall i :: 0 <= i < n ==> IsSpace(s[i]) == space) && (n < |s| ==> IsSpace(s[n]) != space)
  {
    if s == "" || IsSpace(s[0]) != space then 0 else 1 + Span(s[1..], space)
  }

  /** `strings.Fields` */
  function Fields(s: string): seq<string>
    decreases |s|
  {
    var t := s[Span(s, true)..];
    if t == "" then []
    else
      var n := Span(t, false);
      [t[..n]] + Fields(t[n..])
  }

  ghost predicate Solid(s: string) {
    s != "" && forall c :: c in s ==> !IsSpace(c)
  }

  lemma {:induction false} SpanExactly(a: string, b: string, space: bool)
    requires (forall c :: c in a ==> IsSpace(c) == space) && (b != "" ==> IsSpace(b[0]) != space)
    ensures Span(a + b, space) == |a|
  {
    hide IsSpace;
    if a == "" {
      assert a + b == b;
    } else {
      assert a[0] in a && (a + b)[1..] == a[1..] + b;
      SpanExactly(a[1..], b, space);
    }
  }

  lemma FieldsAfterBlanks(gap: string, rest: string)
    requires (forall c :: c in gap ==> IsSpace(c)) && (rest != "" ==> !IsSpace(rest[0]))
    ensures Fields(gap + rest) == Fields(rest)
  {
    hide IsSpace, Span;
    SpanExactly(gap, rest, true);
    SpanExactly("", rest, true);
    assert "" + rest == rest && rest[0..] == rest;
    assert (gap + rest)[|gap|..] == rest;
  }

  lemma FieldsOneWord(w: string, rest: string)
    requires Solid(w) && (rest != "" ==> IsSpace(rest[0]))
    ensures Fields(w + rest) == [w] + Fields(rest)
  {
    hide IsSpace, Span;
    assert w[0] in w;
    SpanExactly("", w + rest, true);
    assert "" + (w + rest) == w + rest && (w + rest)[0..] == w + rest;
    SpanExactly(w, rest, false);
    assert (w + rest)[..|w|] == w && (w + rest)[|w|..] == rest;
  }

  /** Two solid words with blanks between them are two fields. */
  lemma TwoFields(a: string, gap: string, b: string)
    requires Solid(a) && Solid(b) && gap != "" && forall c :: c in gap ==> IsSpace(c)
    ensures Fields(a + gap + b) == [a, b]
  {
    hide IsSpace, Span;
    assert a + gap + b == a + (gap + b) && b + "" == b && gap[0] in gap && b[0] in b;
    FieldsOneWord(a, gap + b);
    FieldsAfterBlanks(gap, b);
    FieldsOneWord(b, "");
    SpanExactly("", "", true);
  }

  function LowerChar(c: char): char {
    if 'A' <= c <= 'Z' then c + 32 as char else c
  }

  /** `strings.ToLower`, on ASCII letters. */
  function ToLower(s: string): (r: string)
  {
    seq(|s|, i requires 0 <= i < |s| => LowerChar(s[i]))
  }

  /** Equal, or one ASCII letter in its two cases. */
  predicate SameLetter(a: char, b: char) {
    a == b || ('A' <= a <= 'Z' && b as int == a as int + 32) || ('A' <= b <= 'Z' && a as int == b as int + 32)
  }

  ghost predicate SameButCase(a: string, b: string) {
    |a| == |b| && forall i :: 0 <= i < |a| ==> SameLetter(a[i], b[i])
  }

  /** Lower case forgets the case of letters and nothing else. */
  lemma ToLowerForgetsCase(a: string, b: string)
    ensures ToLower(a) == ToLower(b) <==> SameButCase(a, b)
  {
    hide SameLetter, LowerChar;
    forall c: char, d: char ensures LowerChar(c) == LowerChar(d) <==> SameLetter(c, d) { LowerCharForgetsCase(c, d); }
    if ToLower(a) == ToLower(b) {
      forall i | 0 <= i < |a| ensures SameLetter(a[i], b[i]) { assert ToLower(a)[i] == ToLower(b)[i]; }
    }
  }

  lemma LowerCharForgetsCase(c: char, d: char)
    ensures LowerChar(c) == LowerChar(d) <==> SameLetter(c, d)
  {
  }

  predicate HasPrefix(s: string, p: string) { p <= s }

  predicate HasSuffix(s: string, p: string) { |p| <= |s| && s[|s| - |p|..] == p }

  predicate InfixAt(s: string, t: string, i: nat) { i + |t| <= |s| && s[i..i + |t|] == t }

  predicate Contains(s: string, t: string) {
    exists i: nat :: i <= |s| && InfixAt(s, t, i)
  }

  lemma FindInfix(s: string, t: string) returns (i: nat)
    requires Contains(s, t) && t != ""
    ensures i + |t| <= |s| && s[i] == t[0] && s[i + |t| - 1] == t[|t| - 1]
  {
    i :| InfixAt(s, t, i);
    assert InfixAt(s, t, i);
    assert s[i..i + |t|][0] == t[0] && s[i..i + |t|][|t| - 1] == t[|t| - 1];
  }

  /** The length of a character, and of a string, in UTF-8. */
  function CharBytes(c: char): nat {
    if c < '\U{80}' then 1 else if c < '\U{800}' then 2 else if c < '\U{10000}' then 3 else 4
  }

  function ByteLen(s: string): nat {
    if s == "" then 0 else CharBytes(s[0]) + ByteLen(s[1..])
  }

  lemma {:induction false} ByteLenAdds(a: string, b: string)
    ensures ByteLen(a + b) == ByteLen(a) + ByteLen(b)
  {
    if a == "" {
      assert a + b == b;
    } else {
      assert (a + b)[1..] == a[1..] + b;
      ByteLenAdds(a[1..], b);
    }
  }
}
