/**
 The control-channel file pull.env: written by internal/controlchannel, read back by internal/doctor.
 `url.Parse` is a parameter: the host it finds, None on a parse error.
 */
module PullEnv {
  import opened Prelude
  import Text

  datatype Error = SubHostRequired | TokenRequired

  // ---- writing ----

  /** The part before the first `/` or `?`. */
  function BeforePath(h: string): string {
    if h == "" || h[0] == '/' || h[0] == '?' then "" else [h[0]] + BeforePath(h[1..])
  }

  /** The host is taken from what `url.Parse` finds. */
  predicate TakenFromUrl(h: string, parseUrl: string -> Option<string>) {
    Text.Contains(h, "://") && parseUrl(h).Some? && parseUrl(h).value != ""
  }

  function NormalizeHost(subHost: string, parseUrl: string -> Option<string>): string {
    var h := Text.TrimSpace(subHost);
    if h == "" then ""
    else if TakenFromUrl(h, parseUrl) then parseUrl(h).value
    else Text.TrimSpace(BeforePath(h))
  }

  const COMMENT :=
    "# rdda control channel" + " — generated by " + "`rdda control-channel" + " init`; do not hand-edit."

  function FromLine(host: string): string { "RDDA_PULL_FROM=" + "https://" + host + "/ru/config" }
  function HealthLine(host: string): string { "RDDA_HEALTH_TO=" + "https://" + host + "/ru/health" }
  function TokenLine(token: string): string { "RDDA_PULL_TOKEN=" + token }

  function EnvText(host: string, token: string): string {
    COMMENT + "\n" + (FromLine(host) + "\n" + (HealthLine(host) + "\n" + (TokenLine(token) + "\n" + "")))
  }

  method RenderEnv(subHost: string, token: string, parseUrl: string -> Option<string>) returns (r: Result<string, Error>)
    ensures var host := NormalizeHost(subHost, parseUrl);
            r == if host == "" then Err(SubHostRequired)
                 else if Text.TrimSpace(token) == "" then Err(TokenRequired)
                 else Ok(EnvText(host, Text.TrimSpace(token)))
  {
    var host := NormalizeHost(subHost, parseUrl);
    if host == "" {
      return Err(SubHostRequired);
    }
    var trimmed := Text.TrimSpace(token);
    if trimmed == "" {
      return Err(TokenRequired);
    }
    var base, b := "https://" + host, COMMENT + "\n";
    var from, health := "RDDA_PULL_FROM=" + base + "/ru/config", "RDDA_HEALTH_TO=" + base + "/ru/health";
    assert from == FromLine(host) && health == HealthLine(host);
    b := b + (from + "\n");
    b := b + (health + "\n");
    b := b + ("RDDA_PULL_TOKEN=" + trimmed + "\n");
    assert b == EnvText(host, trimmed) by { hide FromLine, HealthLine; }
    return Ok(b);
  }

  // ---- reading ----

  const MAX_LINE := 65536  // bufio.Scanner's buffer: a line and its newline must fit

  function DropReturn(s: string): string {
    if s != "" && s[|s| - 1] == '\r' then s[..|s| - 1] else s
  }

  /** The lines the scanner delivers: it stops for good at a line that is too long. */
  function Scanned(pieces: seq<string>): seq<string> {
    if pieces == [] || (|pieces| == 1 && pieces[0] == "") || Text.ByteLen(pieces[0]) >= MAX_LINE then []
    else [DropReturn(pieces[0])] + Scanned(pieces[1..])
  }

  datatype Pulled = Pulled(from: string, token: string)

  function ReadLine(acc: Pulled, line: string): Pulled {
    var l := Text.TrimSpace(line);
    var k := Text.Before(l, '=');
    if |k| == |l| then acc
    else if k == "RDDA_PULL_FROM" then acc.(from := l[|k| + 1..])
    else if k == "RDDA_PULL_TOKEN" then acc.(token := l[|k| + 1..])
    else acc
  }

  function ReadLines(acc: Pulled, lines: seq<string>): Pulled
    decreases |lines|
  {
    if lines == [] then acc else ReadLines(ReadLine(acc, lines[0]), lines[1..])
  }

  function Reading(text: string): Pulled {
    ReadLines(Pulled("", ""), Scanned(Text.SplitOn(text, '\n')))
  }

  /** `file` is None when pull.env cannot be opened. */
  method ReadPullEnv(file: Option<string>) returns (p: Pulled)
    ensures p == if file.None? then Pulled("", "") else Reading(file.value)
  {
    p := Pulled("", "");
    if file.None? {
      return;
    }
    var lines := Scanned(Text.SplitOn(file.value, '\n'));
    for n := 0 to |lines|
      invariant ReadLines(Pulled("", ""), lines) == ReadLines(p, lines[n..])
    {
      var l := Text.TrimSpace(lines[n]);
      var k := Text.Before(l, '=');
      if |k| == |l| {
        continue;
      }
      var v := l[|k| + 1..];
      if k == "RDDA_PULL_FROM" {
        p := p.(from := v);
      } else if k == "RDDA_PULL_TOKEN" {
        p := p.(token := v);
      }
    }
  }

  // ---- the host ----

  lemma {:induction false} BeforePathHasNoPath(h: string)
    ensures BeforePath(h) <= h && '/' !in BeforePath(h) && '?' !in BeforePath(h)
    ensures '/' !in h && '?' !in h ==> BeforePath(h) == h
  {
    if h != "" && h[0] != '/' && h[0] != '?' {
      BeforePathHasNoPath(h[1..]);
      assert h == [h[0]] + h[1..];
    }
  }

  /** Off the URL path the result is a trimmed host without path or query, and normalizing it again changes nothing. */
  lemma NormalizeHostIsIdempotent(subHost: string, parseUrl: string -> Option<string>)
    requires !TakenFromUrl(Text.TrimSpace(subHost), parseUrl)
    ensures var host := NormalizeHost(subHost, parseUrl);
            && '/' !in host && '?' !in host && Text.Trimmed(host)
            && NormalizeHost(host, parseUrl) == host
  {
    var h := Text.TrimSpace(subHost);
    var cut := BeforePath(h);
    var host := Text.TrimSpace(cut);
    BeforePathHasNoPath(h);
    Text.TrimSpaceIsTrimmed(cut);
    Text.TrimmedStays(host);
    BeforePathHasNoPath(host);
    if Text.Contains(host, "://") { var i := Text.FindInfix(host, "://"); }
  }

  /** From a pasted URL that parses the host is the one that was parsed, and the rendered file points there. */
  lemma PastedUrlIsParsed(subHost: string, scheme: string, rest: string, host: string, token: string, parseUrl: string -> Option<string>)
    requires Text.TrimSpace(subHost) == scheme + "://" + rest && parseUrl(scheme + "://" + rest) == Some(host) && host != ""
    ensures NormalizeHost(subHost, parseUrl) == host
    ensures '\n' !in host && Text.ByteLen(FromLine(host)) < 65536 && '\n' !in token && token != "" && Text.Trimmed(token) ==>
              Reading(EnvText(host, token)).from == "https://" + host + "/ru/config"
  {
    hide Text.TrimSpace, Reading, EnvText, Text.ByteLen, Text.Trimmed;
    var h := scheme + "://" + rest;
    assert h[|scheme|..|scheme| + |"://"|] == "://";
    assert Text.InfixAt(h, "://", |scheme|);
    if OneLine(host, token) && token != "" && Text.Trimmed(token) { ReadRendered(host, token); }
  }

  // ---- any file ----

  /** The line, trimmed, is `k=v` with the first "=" between the two. */
  ghost predicate Assigns(line: string, k: string, v: string) {
    '=' !in k && Text.TrimSpace(line) == k + "=" + v
  }

  ghost predicate Mentions(line: string, k: string) { exists v :: Assigns(line, k, v) }

  function Value(p: Pulled, k: string): string { if k == "RDDA_PULL_FROM" then p.from else p.token }

  /** What the first "=" of a trimmed line tells. */
  lemma AssignmentIsFound(line: string, k: string)
    ensures var l := Text.TrimSpace(line);
            var found := Text.Before(l, '=');
            && (Mentions(line, k) <==> found == k && |found| < |l|)
            && forall v :: Assigns(line, k, v) ==> l[|k| + 1..] == v
  {
    hide Text.TrimSpace;
    var l := Text.TrimSpace(line);
    var found := Text.Before(l, '=');
    forall v | Assigns(line, k, v) ensures found == k && |found| < |l| && l[|k| + 1..] == v {
      assert l == k + ['='] + v;
      Text.BeforeFirst(k, '=', v);
    }
    if found == k && |found| < |l| {
      assert l == k + "=" + l[|k| + 1..];
      assert Assigns(line, k, l[|k| + 1..]);
    }
  }

  lemma ReadLineIsExact(acc: Pulled, line: string, k: string)
    requires k == "RDDA_PULL_FROM" || k == "RDDA_PULL_TOKEN"
    ensures forall v :: Assigns(line, k, v) ==> Value(ReadLine(acc, line), k) == v
    ensures !Mentions(line, k) ==> Value(ReadLine(acc, line), k) == Value(acc, k)
  {
    hide Text.TrimSpace, Text.Before, Assigns;
    assert |"RDDA_PULL_FROM"| == 14 && |"RDDA_PULL_TOKEN"| == 15;
    AssignmentIsFound(line, k);
  }

  /** Of several lines that assign to a key the last one counts; lines about anything else do not matter. */
  lemma {:induction false} LastAssignmentWins(acc: Pulled, lines: seq<string>, k: string)
    requires k == "RDDA_PULL_FROM" || k == "RDDA_PULL_TOKEN"
    ensures (forall m :: 0 <= m < |lines| ==> !Mentions(lines[m], k)) ==> Value(ReadLines(acc, lines), k) == Value(acc, k)
    ensures forall n, v :: 0 <= n < |lines| && Assigns(lines[n], k, v) && (forall m :: n < m < |lines| ==> !Mentions(lines[m], k)) ==>
              Value(ReadLines(acc, lines), k) == v
    decreases |lines|
  {
    hide Assigns, ReadLine, Value;
    if lines != [] {
      var rest, next := lines[1..], ReadLine(acc, lines[0]);
      ReadLineIsExact(acc, lines[0], k);
      LastAssignmentWins(next, rest, k);
      assert forall m :: 0 <= m < |rest| ==> rest[m] == lines[m + 1];
      forall n, v | 0 <= n < |lines| && Assigns(lines[n], k, v) && (forall m :: n < m < |lines| ==> !Mentions(lines[m], k))
        ensures Value(ReadLines(acc, lines), k) == v
      {
        assert forall m :: n <= m < |rest| ==> !Mentions(rest[m], k);
        if n > 0 { assert Assigns(rest[n - 1], k, v); }
      }
    }
  }

  // ---- what the reader makes of a rendered file ----

  lemma {:induction false} TrimRightKeeps(s: string, rest: string)
    requires s != "" && !Text.IsSpace(s[|s| - 1])
    ensures s <= Text.TrimRight(s + rest)
  {
    hide Text.IsSpace;
    if rest == "" {
      assert s + rest == s;
    } else {
      assert (s + rest)[..|s + rest| - 1] == s + rest[..|rest| - 1];
      TrimRightKeeps(s, rest[..|rest| - 1]);
    }
  }

  lemma {:induction false} BeforePathStops(host: string, rest: string)
    requires '/' !in host && '?' !in host && (rest != "" ==> rest[0] == '/' || rest[0] == '?')
    ensures BeforePath(host + rest) == host
  {
    if host == "" {
      assert host + rest == rest;
    } else {
      assert (host + rest)[1..] == host[1..] + rest;
      BeforePathStops(host[1..], rest);
    }
  }

  /** A host comes out as it went in, whatever path or query was pasted after it. */
  lemma PastedPathIsDropped(host: string, rest: string, parseUrl: string -> Option<string>)
    requires host != "" && Text.Trimmed(host) && '/' !in host && '?' !in host
    requires rest != "" ==> rest[0] == '/' || rest[0] == '?'
    requires !TakenFromUrl(Text.TrimSpace(host + rest), parseUrl)
    ensures NormalizeHost(host + rest, parseUrl) == host
  {
    hide Text.IsSpace, Text.Contains;
    var h := Text.TrimSpace(host + rest);
    assert Text.TrimLeft(host + rest) == host + rest;
    TrimRightKeeps(host, rest);
    Text.TrimRightKeepsHead(host + rest);
    assert h == host + h[|host|..];
    BeforePathStops(host, h[|host|..]);
    Text.TrimmedStays(host);
  }

  // ---- the round trip ----

  lemma ReadLineStaysOnLine(acc: Pulled, line: string)
    requires '\n' !in acc.from && '\n' !in acc.token && '\n' !in line
    ensures '\n' !in ReadLine(acc, line).from && '\n' !in ReadLine(acc, line).token
  {
    hide Text.TrimSpace;
    Text.TrimSpaceIsTrimmed(line);
  }

  lemma {:induction false} ReadNeverSpansLines(acc: Pulled, pieces: seq<string>)
    requires '\n' !in acc.from && '\n' !in acc.token && forall p :: p in pieces ==> '\n' !in p
    ensures '\n' !in ReadLines(acc, Scanned(pieces)).from && '\n' !in ReadLines(acc, Scanned(pieces)).token
    decreases |pieces|
  {
    hide Text.TrimSpace, Text.ByteLen;
    if Scanned(pieces) != [] {
      assert pieces[0] in pieces;
      ReadLineStaysOnLine(acc, DropReturn(pieces[0]));
      ReadNeverSpansLines(ReadLine(acc, DropReturn(pieces[0])), pieces[1..]);
      assert Scanned(pieces)[1..] == Scanned(pieces[1..]);
    }
  }

  /** An assignment line that neither starts nor ends with a space is read as key and value. */
  lemma ReadAssignment(acc: Pulled, key: string, value: string)
    requires key != "" && !Text.IsSpace(key[0]) && '=' !in key && value != "" && !Text.IsSpace(value[|value| - 1])
    ensures var line := key + "=" + value;
            && DropReturn(line) == line
            && ReadLine(acc, line) ==
               if key == "RDDA_PULL_FROM" then acc.(from := value)
               else if key == "RDDA_PULL_TOKEN" then acc.(token := value) else acc
  {
    hide Text.TrimSpace;
    var line := key + "=" + value;
    assert line[0] == key[0] && line[|line| - 1] == value[|value| - 1];
    assert line[|line| - 1] != '\r' by { assert Text.IsSpace('\r'); }
    Text.TrimmedStays(line);
    Text.BeforeFirst(key, '=', value);
    assert line == key + ['='] + value && line[|key| + 1..] == value;
  }

  lemma CommentIsPlain()
    ensures '=' !in COMMENT && '\n' !in COMMENT
  {
    CommentLacks('=');
    CommentLacks('\n');
  }

  lemma CommentLacks(c: char)
    requires c == '=' || c == '\n'
    ensures c !in COMMENT
  {
    var a, b, d, e := "# rdda control channel", " — generated by ", "`rdda control-channel", " init`; do not hand-edit.";
    CommentStartLacks(c);
    CommentEndLacks(c);
    hide *;
    assert COMMENT == (a + b) + (d + e);
  }

  lemma CommentStartLacks(c: char)
    requires c == '=' || c == '\n'
    ensures c !in "# rdda control channel" && c !in " — generated by "
  {
  }

  lemma CommentEndLacks(c: char)
    requires c == '=' || c == '\n'
    ensures c !in "`rdda control-channel" && c !in " init`; do not hand-edit."
  {
  }

  lemma ReadComment(acc: Pulled)
    ensures DropReturn(COMMENT) == COMMENT && ReadLine(acc, COMMENT) == acc
  {
  }

  /** Both lines with the host and the line with the token fit the scanner. */
  ghost predicate Fits(host: string, token: string) {
    Text.ByteLen(FromLine(host)) < 65536 && Text.ByteLen(TokenLine(token)) < 65536
  }

  ghost predicate OneLine(host: string, token: string) { '\n' !in host && '\n' !in token }

  lemma ScannedStep(line: string, rest: seq<string>)
    requires rest != []
    ensures Scanned([line] + rest) == if Text.ByteLen(line) >= MAX_LINE then [] else [DropReturn(line)] + Scanned(rest)
  {
  }

  lemma PiecesOfEnv(host: string, token: string)
    requires OneLine(host, token)
    ensures Text.SplitOn(EnvText(host, token), '\n') == [COMMENT] + ([FromLine(host)] + ([HealthLine(host)] + ([TokenLine(token)] + [""])))
  {
    hide Text.SplitOn;
    CommentIsPlain();
    Text.SplitFirst(COMMENT, '\n', FromLine(host) + "\n" + (HealthLine(host) + "\n" + (TokenLine(token) + "\n" + "")));
    Text.SplitFirst(FromLine(host), '\n', HealthLine(host) + "\n" + (TokenLine(token) + "\n" + ""));
    Text.SplitFirst(HealthLine(host), '\n', TokenLine(token) + "\n" + "");
    Text.SplitFirst(TokenLine(token), '\n', "");
    Text.SplitFirst("", '\n', "");
  }

  lemma LineLengths(host: string)
    ensures Text.ByteLen(HealthLine(host)) == Text.ByteLen(FromLine(host)) && Text.ByteLen(COMMENT) < MAX_LINE
  {
    hide Text.ByteLen;
    var mid := "https://" + host;
    assert FromLine(host) == ("RDDA_PULL_FROM=" + mid) + "/ru/config" && HealthLine(host) == ("RDDA_HEALTH_TO=" + mid) + "/ru/health";
    Text.ByteLenAdds("RDDA_PULL_FROM=" + mid, "/ru/config");
    Text.ByteLenAdds("RDDA_HEALTH_TO=" + mid, "/ru/health");
    Text.ByteLenAdds("RDDA_PULL_FROM=", mid);
    Text.ByteLenAdds("RDDA_HEALTH_TO=", mid);
    FixedLengths();
    ByteLenBound(COMMENT);
  }

  lemma FixedLengths()
    ensures Text.ByteLen("RDDA_PULL_FROM=") == Text.ByteLen("RDDA_HEALTH_TO=")
    ensures Text.ByteLen("/ru/config") == Text.ByteLen("/ru/health")
  {
    hide Text.ByteLen;
    AsciiLen("RDDA_PULL_FROM=");
    AsciiLen("RDDA_HEALTH_TO=");
    AsciiLen("/ru/config");
    AsciiLen("/ru/health");
  }

  lemma {:induction false} AsciiLen(s: string)
    requires forall i :: 0 <= i < |s| ==> s[i] < '\U{80}'
    ensures Text.ByteLen(s) == |s|
  {
    if s != "" { AsciiLen(s[1..]); }
  }

  lemma {:induction false} ByteLenBound(s: string)
    ensures Text.ByteLen(s) <= 4 * |s|
  {
    if s != "" { ByteLenBound(s[1..]); }
  }

  /** What the reader makes of the rendered text when no value spans lines. */
  lemma ReadRendered(host: string, token: string)
    requires OneLine(host, token) && token != "" && Text.Trimmed(token)
    ensures Reading(EnvText(host, token)) ==
            Pulled(if Text.ByteLen(FromLine(host)) < 65536 then "https://" + host + "/ru/config" else "",
                   if Fits(host, token) then token else "")
  {
    hide Text.SplitOn, Text.ByteLen, Text.Trimmed, Text.TrimSpace, Text.IsSpace, EnvText, ReadLine, DropReturn;
    var url, health := "https://" + host + "/ru/config", "https://" + host + "/ru/health";
    var p0, p1, p2 := Pulled("", ""), Pulled(url, ""), Pulled(url, token);
    PiecesOfEnv(host, token);
    LineLengths(host);
    ScannedStep(COMMENT, [FromLine(host)] + ([HealthLine(host)] + ([TokenLine(token)] + [""])));
    ScannedStep(FromLine(host), [HealthLine(host)] + ([TokenLine(token)] + [""]));
    ScannedStep(HealthLine(host), [TokenLine(token)] + [""]);
    ScannedStep(TokenLine(token), [""]);
    ReadComment(p0);
    LinesAsAssignments(host, token);
    if Text.ByteLen(FromLine(host)) >= MAX_LINE {
      ReadStep(p0, COMMENT, []);
    } else if Text.ByteLen(TokenLine(token)) >= MAX_LINE {
      ReadStep(p1, HealthLine(host), []);
      ReadStep(p0, FromLine(host), [HealthLine(host)] + []);
      ReadStep(p0, COMMENT, [FromLine(host)] + ([HealthLine(host)] + []));
    } else {
      ReadStep(p1, TokenLine(token), []);
      ReadStep(p1, HealthLine(host), [TokenLine(token)] + []);
      ReadStep(p0, FromLine(host), [HealthLine(host)] + ([TokenLine(token)] + []));
      ReadStep(p0, COMMENT, [FromLine(host)] + ([HealthLine(host)] + ([TokenLine(token)] + [])));
    }
  }

  lemma ReadStep(acc: Pulled, line: string, rest: seq<string>)
    ensures ReadLines(acc, [line] + rest) == ReadLines(ReadLine(acc, line), rest)
    ensures ReadLines(acc, []) == acc && ReadLines(ReadLine(acc, line), []) == ReadLine(acc, line)
  {
  }

  lemma LinesAsAssignments(host: string, token: string)
    requires token != "" && Text.Trimmed(token)
    ensures var url := "https://" + host + "/ru/config";
            && DropReturn(FromLine(host)) == FromLine(host) && ReadLine(Pulled("", ""), FromLine(host)) == Pulled(url, "")
            && DropReturn(HealthLine(host)) == HealthLine(host) && ReadLine(Pulled(url, ""), HealthLine(host)) == Pulled(url, "")
            && DropReturn(TokenLine(token)) == TokenLine(token) && ReadLine(Pulled(url, ""), TokenLine(token)) == Pulled(url, token)
  {
    hide ReadLine, DropReturn;
    var url, health := "https://" + host + "/ru/config", "https://" + host + "/ru/health";
    assert url[|url| - 1] == 'g' && health[|health| - 1] == 'h';
    assert FromLine(host) == "RDDA_PULL_FROM" + "=" + url;
    assert HealthLine(host) == "RDDA_HEALTH_TO" + "=" + health;
    assert TokenLine(token) == "RDDA_PULL_TOKEN" + "=" + token;
    ReadAssignment(Pulled("", ""), "RDDA_PULL_FROM", url);
    ReadAssignment(Pulled(url, ""), "RDDA_HEALTH_TO", health);
    ReadAssignment(Pulled(url, ""), "RDDA_PULL_TOKEN", token);
    assert "RDDA_HEALTH_TO"[5] == 'H' && "RDDA_PULL_FROM"[5] == 'P' && "RDDA_PULL_TOKEN"[5] == 'P';
    assert |"RDDA_PULL_FROM"| == 14 && |"RDDA_PULL_TOKEN"| == 15;
  }

  /**
   The reader gets back exactly the rendered host and token if and only if neither contains a line break and
   their lines fit the scanner; in particular a token may contain "=".
   */
  lemma PullEnvRoundTrip(subHost: string, token: string, parseUrl: string -> Option<string>)
    requires NormalizeHost(subHost, parseUrl) != "" && Text.TrimSpace(token) != ""
    ensures var host, t := NormalizeHost(subHost, parseUrl), Text.TrimSpace(token);
            Reading(EnvText(host, t)) == Pulled("https://" + host + "/ru/config", t)
            <==> OneLine(host, t) && Fits(host, t)
  {
    hide Text.SplitOn, Text.ByteLen, EnvText, NormalizeHost, Reading, Scanned, ReadLines;
    var host, t := NormalizeHost(subHost, parseUrl), Text.TrimSpace(token);
    Text.TrimSpaceIsTrimmed(token);
    if OneLine(host, t) {
      ReadRendered(host, t);
    } else {
      ReadingNeverSpansLines(EnvText(host, t));
      var url := "https://" + host + "/ru/config";
      if '\n' in host {
        var i :| 0 <= i < |host| && host[i] == '\n';
        assert url[i + |"https://"|] == '\n';
      }
    }
  }

  lemma ReadingNeverSpansLines(text: string)
    ensures '\n' !in Reading(text).from && '\n' !in Reading(text).token
  {
    Text.SplitPieces(text, '\n');
    ReadNeverSpansLines(Pulled("", ""), Text.SplitOn(text, '\n'));
  }
}
