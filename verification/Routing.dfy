/**
 The RU node's route: how internal/singboxconf renders it and how internal/routing evaluates it for one
 destination.  Rules are JSON objects, as the evaluator sees them; the JSON text itself is not modelled.
 */
module Routing {
  import opened Prelude
  import Text

  datatype Json = Null | Bool(b: bool) | Str(s: string) | Arr(items: seq<Json>) | Other
  type Obj = map<string, Json>

  datatype RuleSet = RuleSet(tag: string, path: string)
  datatype RouteDoc = RouteDoc(rules: seq<Obj>, final: string, ruleSets: seq<RuleSet>)

  /** The library and runtime answers an evaluation relies on.  `geoip` returns (matched, determinate). */
  datatype Net = Net(isIP: string -> bool, isPrivate: string -> bool, geoip: Option<(string, string) -> (bool, bool)>)

  datatype Step =
    | PrivateMatch(i: nat) | PrivateNo(i: nat)
    | RuleSetSkipped(i: nat, tag: string) | RuleSetNoMatcher(i: nat, tag: string) | RuleSetUnavailable(i: nat, tag: string)
    | RuleSetMatch(i: nat, tag: string) | RuleSetNo(i: nat, tag: string)
    | SuffixMatch(i: nat) | SuffixNo(i: nat) | Unsupported(i: nat) | Final

  datatype Decision = Decision(input: string, isIP: bool, outbound: string, rule: string, trace: seq<Step>)
  datatype Error = BadConfig | EmptyDestination

  // ---- reading JSON values ----

  function Field(r: Obj, key: string): Json { if key in r then r[key] else Null }

  predicate IsTrue(v: Json) { v == Bool(true) }

  function AsString(v: Json): string { if v.Str? then v.s else "" }

  function RuleSetTag(v: Json): string {
    match v
    case Str(s) => s
    case Arr(items) => if items == [] then "" else AsString(items[0])
    case _ => ""
  }

  function Strings(items: seq<Json>): seq<string> {
    if items == [] then [] else Strings(items[..|items| - 1]) + (if items[|items| - 1].Str? then [items[|items| - 1].s] else [])
  }

  method ToStrings(v: Json) returns (out: seq<string>)
    ensures out == SuffixList(v)
  {
    match v {
      case Str(s) => return [s];
      case Arr(items) =>
        out := [];
        for n := 0 to |items|
          invariant out == Strings(items[..n])
        {
          assert items[..n + 1][..n] == items[..n];
          if items[n].Str? {
            out := out + [items[n].s];
          }
        }
        assert items[..|items|] == items;
      case _ => return [];
    }
  }

  function SuffixList(v: Json): seq<string> {
    match v case Str(s) => [s] case Arr(items) => Strings(items) case _ => []
  }

  // ---- domain suffixes ----

  function WithoutDot(domain: string): string {
    if Text.HasSuffix(domain, ".") then domain[..|domain| - 1] else domain
  }

  function Normalized(domain: string): string { Text.ToLower(WithoutDot(domain)) }

  /** The test of the code, on lower-case strings. */
  predicate StringMatch(d: string, s: string) {
    s != "" && if Text.HasPrefix(s, ".") then Text.HasSuffix(d, s) else d == s || Text.HasSuffix(d, "." + s)
  }

  function Labels(s: string): seq<string> { Text.SplitOn(s, '.') }

  ghost predicate IsTail<T>(a: seq<T>, b: seq<T>) { |a| <= |b| && b[|b| - |a|..] == a }

  /** What a suffix means: a bare one its domain and everything below, one with a leading dot only what is below. */
  ghost predicate LabelMatch(d: string, s: string) {
    s != "" && if s[0] == '.' then IsTail(Labels(s[1..]), Labels(d)) && Labels(s[1..]) != Labels(d)
               else IsTail(Labels(s), Labels(d))
  }

  /** A dot and `t` end the string exactly when the labels of `t` are a proper tail of its labels. */
  lemma DotSuffixIsProperTail(d: string, t: string)
    ensures Text.HasSuffix(d, "." + t) <==> IsTail(Labels(t), Labels(d)) && Labels(t) != Labels(d)
  {
    hide Text.SplitOn;
    if Text.HasSuffix(d, "." + t) {
      var a := d[..|d| - |t| - 1];
      assert d == a + ['.'] + t;
      Text.SplitConcat(a, '.', t);
    }
    if IsTail(Labels(t), Labels(d)) && Labels(t) != Labels(d) {
      var above := Labels(d)[..|Labels(d)| - |Labels(t)|];
      assert Labels(d) == above + Labels(t);
      assert above != [] by { assert [] + Labels(t) == Labels(t); }
      Text.JoinConcat(above, Labels(t), '.');
      Text.JoinSplit(d, '.');
      Text.JoinSplit(t, '.');
      assert d == Text.Join(above, '.') + ("." + t);
    }
  }

  /** Comparing strings is comparing labels. */
  lemma SuffixIsLabelTail(d: string, s: string)
    ensures StringMatch(d, s) <==> LabelMatch(d, s)
  {
    if s != "" {
      if s[0] == '.' {
        assert s == "." + s[1..];
        DotSuffixIsProperTail(d, s[1..]);
      } else {
        DotSuffixIsProperTail(d, s);
        Text.JoinSplit(d, '.');
        Text.JoinSplit(s, '.');
      }
    }
  }

  /** The domain falls under one of the suffixes; neither their order nor repetitions matter. */
  ghost predicate Allowed(domain: string, suffixes: seq<string>) {
    exists s :: s in suffixes && LabelMatch(Normalized(domain), Text.ToLower(s))
  }

  /** The verdict depends neither on the case of domain and suffixes nor on a dot that ends the domain. */
  lemma CaseAndFinalDotDoNotMatter(domain: string, domain': string, suffixes: seq<string>, suffixes': seq<string>)
    requires Text.SameButCase(domain, domain') && |suffixes| == |suffixes'|
    requires forall i :: 0 <= i < |suffixes| ==> Text.SameButCase(suffixes[i], suffixes'[i])
    ensures Allowed(domain, suffixes) <==> Allowed(domain', suffixes')
    ensures !Text.HasSuffix(domain, ".") ==> (Allowed(domain + ".", suffixes) <==> Allowed(domain, suffixes))
  {
    hide LabelMatch, Text.ToLower;
    var cut, cut' := WithoutDot(domain), WithoutDot(domain');
    assert Text.SameButCase(cut, cut');
    Text.ToLowerForgetsCase(cut, cut');
    forall i | 0 <= i < |suffixes| ensures Text.ToLower(suffixes[i]) == Text.ToLower(suffixes'[i]) {
      Text.ToLowerForgetsCase(suffixes[i], suffixes'[i]);
    }
    SameSuffixesAllow(domain, domain', suffixes, suffixes');
    SameSuffixesAllow(domain', domain, suffixes', suffixes);
    if !Text.HasSuffix(domain, ".") { assert (domain + ".")[..|domain|] == domain; }
  }

  lemma SameSuffixesAllow(domain: string, domain': string, suffixes: seq<string>, suffixes': seq<string>)
    requires Normalized(domain) == Normalized(domain') && |suffixes| == |suffixes'|
    requires forall i :: 0 <= i < |suffixes| ==> Text.ToLower(suffixes[i]) == Text.ToLower(suffixes'[i])
    ensures Allowed(domain, suffixes) ==> Allowed(domain', suffixes')
  {
    hide LabelMatch, Text.ToLower, Normalized;
    if Allowed(domain, suffixes) {
      var s :| s in suffixes && LabelMatch(Normalized(domain), Text.ToLower(s));
      var i :| 0 <= i < |suffixes| && suffixes[i] == s;
      assert suffixes'[i] in suffixes';
    }
  }

  method MatchDomainSuffix(domain: string, suffixes: seq<string>) returns (r: bool)
    ensures r <==> Allowed(domain, suffixes)
  {
    var d := Normalized(domain);
    for n := 0 to |suffixes|
      invariant forall m :: 0 <= m < n ==> !LabelMatch(d, Text.ToLower(suffixes[m]))
    {
      var s := Text.ToLower(suffixes[n]);
      SuffixIsLabelTail(d, s);
      if s == "" {
        continue;
      }
      if Text.HasPrefix(s, ".") {
        if Text.HasSuffix(d, s) {
          return true;
        }
        continue;
      }
      if d == s || Text.HasSuffix(d, "." + s) {
        return true;
      }
    }
    return false;
  }

  // ---- evaluation ----

  function SrsPath(ruleSets: seq<RuleSet>, tag: string): string {
    if ruleSets == [] then "" else if ruleSets[0].tag == tag then ruleSets[0].path else SrsPath(ruleSets[1..], tag)
  }

  datatype RuleKind = Private | Geo(tag: string) | Suffix(suffixes: seq<string>) | Unknown

  /** Which of the supported conditions the evaluator reads off a rule: the first one present. */
  function KindOf(r: Obj): RuleKind {
    if IsTrue(Field(r, "ip_is_private")) then Private
    else if Field(r, "rule_set") != Null then Geo(RuleSetTag(Field(r, "rule_set")))
    else if Field(r, "domain_suffix") != Null then Suffix(SuffixList(Field(r, "domain_suffix")))
    else Unknown
  }

  /** The trace line for rule `i`. */
  ghost function StepFor(k: RuleKind, i: nat, doc: RouteDoc, input: string, net: Net): Step {
    match k
    case Private => if net.isIP(input) && net.isPrivate(input) then PrivateMatch(i) else PrivateNo(i)
    case Geo(tag) =>
      if !net.isIP(input) then RuleSetSkipped(i, tag)
      else if net.geoip.None? || SrsPath(doc.ruleSets, tag) == "" then RuleSetNoMatcher(i, tag)
      else
        var (matched, ok) := net.geoip.value(SrsPath(doc.ruleSets, tag), input);
        if !ok then RuleSetUnavailable(i, tag) else if matched then RuleSetMatch(i, tag) else RuleSetNo(i, tag)
    case Suffix(suffixes) => if !net.isIP(input) && Allowed(input, suffixes) then SuffixMatch(i) else SuffixNo(i)
    case Unknown => Unsupported(i)
  }

  ghost predicate Hit(s: Step) { s.PrivateMatch? || s.RuleSetMatch? || s.SuffixMatch? }

  ghost function RuleStep(doc: RouteDoc, i: nat, input: string, net: Net): Step
    requires i < |doc.rules|
  {
    StepFor(KindOf(doc.rules[i]), i, doc, input, net)
  }

  function RuleName(k: RuleKind): string {
    match k case Private => "ip_is_private" case Geo(tag) => "rule_set:" + tag case _ => "domain_suffix"
  }

  /** The first matching rule decides, and the trace holds one line per rule looked at. */
  ghost predicate Decides(d: Decision, doc: RouteDoc, input: string, net: Net, k: nat)
    requires k <= |doc.rules|
  {
    && d.input == input && d.isIP == net.isIP(input)
    && |d.trace| == k + 1
    && (forall i :: 0 <= i < k ==> d.trace[i] == RuleStep(doc, i, input, net) && !Hit(d.trace[i]))
    && (if k < |doc.rules|
        then d.trace[k] == RuleStep(doc, k, input, net) && Hit(d.trace[k])
             && d.outbound == AsString(Field(doc.rules[k], "outbound")) && d.rule == RuleName(KindOf(doc.rules[k]))
        else d.trace[k] == Final && d.outbound == (if doc.final == "" then "proxy" else doc.final) && d.rule == "final")
  }

  method Evaluate(config: Option<RouteDoc>, rawInput: string, net: Net) returns (r: Result<Decision, Error>)
    ensures config.None? ==> r == Err(BadConfig)
    ensures config.Some? && Text.TrimSpace(rawInput) == "" ==> r == Err(EmptyDestination)
    ensures config.Some? && Text.TrimSpace(rawInput) != "" ==>
              r.Ok? && exists k :: 0 <= k <= |config.value.rules| && Decides(r.value, config.value, Text.TrimSpace(rawInput), net, k)
  {
    hide Text.TrimSpace, Allowed;
    if config.None? {
      return Err(BadConfig);
    }
    var doc, input := config.value, Text.TrimSpace(rawInput);
    if input == "" {
      return Err(EmptyDestination);
    }
    var isIP, trace := net.isIP(input), [];
    for i := 0 to |doc.rules|
      invariant |trace| == i
      invariant forall j :: 0 <= j < i ==> trace[j] == RuleStep(doc, j, input, net) && !Hit(trace[j])
    {
      var rule := doc.rules[i];
      var out := AsString(Field(rule, "outbound"));
      if IsTrue(Field(rule, "ip_is_private")) {
        if isIP && net.isPrivate(input) {
          r := Ok(Decision(input, isIP, out, "ip_is_private", trace + [PrivateMatch(i)]));
          assert Decides(r.value, doc, input, net, i);
          return;
        }
        trace := trace + [PrivateNo(i)];
      } else if Field(rule, "rule_set") != Null {
        var tag := RuleSetTag(Field(rule, "rule_set"));
        if !isIP {
          trace := trace + [RuleSetSkipped(i, tag)];
          continue;
        }
        var path := SrsPath(doc.ruleSets, tag);
        if net.geoip.None? || path == "" {
          trace := trace + [RuleSetNoMatcher(i, tag)];
          continue;
        }
        var (matched, ok) := net.geoip.value(path, input);
        if !ok {
          trace := trace + [RuleSetUnavailable(i, tag)];
        } else if matched {
          r := Ok(Decision(input, isIP, out, "rule_set:" + tag, trace + [RuleSetMatch(i, tag)]));
          assert Decides(r.value, doc, input, net, i);
          return;
        } else {
          trace := trace + [RuleSetNo(i, tag)];
        }
      } else if Field(rule, "domain_suffix") != Null {
        var suffixes := ToStrings(Field(rule, "domain_suffix"));
        var matched := MatchDomainSuffix(input, suffixes);
        if !isIP && matched {
          r := Ok(Decision(input, isIP, out, "domain_suffix", trace + [SuffixMatch(i)]));
          assert Decides(r.value, doc, input, net, i);
          return;
        }
        trace := trace + [SuffixNo(i)];
      } else {
        trace := trace + [Unsupported(i)];
      }
    }
    var final := if doc.final == "" then "proxy" else doc.final;
    r := Ok(Decision(input, isIP, final, "final", trace + [Final]));
    assert Decides(r.value, doc, input, net, |doc.rules|);
  }

  // ---- rendering ----

  datatype Config = Config(geoIPPath: string, intlAllowDomains: seq<string>)

  function StrArray(ss: seq<string>): Json { Arr(seq(|ss|, i requires 0 <= i < |ss| => Str(ss[i]))) }

  function PrivateRule(): Obj { map["ip_is_private" := Bool(true), "outbound" := Str("direct")] }
  function GeoRule(): Obj { map["rule_set" := Str("geoip-ru"), "outbound" := Str("direct")] }
  function DomainRule(domains: seq<string>): Obj { map["domain_suffix" := StrArray(domains), "outbound" := Str("direct")] }

  function RURoute(cfg: Config): RouteDoc {
    RouteDoc(
      [PrivateRule()]
      + (if cfg.geoIPPath != "" then [GeoRule()] else [])
      + (if cfg.intlAllowDomains != [] then [DomainRule(cfg.intlAllowDomains)] else []),
      "proxy",
      if cfg.geoIPPath != "" then [RuleSet("geoip-ru", cfg.geoIPPath)] else [])
  }

  /** The route part of `RenderRU`, whatever it is asked about, decides as the configuration promises. */
  method RenderRURoute(cfg: Config) returns (doc: RouteDoc)
    ensures doc == RURoute(cfg)
    ensures forall d, input, net, k :: 0 <= k <= |doc.rules| && Decides(d, doc, input, net, k) ==>
              d.outbound == if GoesDirect(cfg, input, net) then "direct" else "proxy"
  {
    hide Decides, GoesDirect;
    forall d, input, net, k: nat | k <= |RURoute(cfg).rules| && Decides(d, RURoute(cfg), input, net, k)
      ensures d.outbound == if GoesDirect(cfg, input, net) then "direct" else "proxy"
    {
      RenderedRouteMeansConfig(cfg, d, input, net, k);
    }
    var rules, ruleSets := [PrivateRule()], [];
    if cfg.geoIPPath != "" {
      rules := rules + [GeoRule()];
    }
    if |cfg.intlAllowDomains| > 0 {
      rules := rules + [DomainRule(cfg.intlAllowDomains)];
    }
    if cfg.geoIPPath != "" {
      ruleSets := [RuleSet("geoip-ru", cfg.geoIPPath)];
    }
    doc := RouteDoc(rules, "proxy", ruleSets);
  }

  /** What the configuration promises: who goes direct. */
  ghost predicate GoesDirect(cfg: Config, input: string, net: Net) {
    if net.isIP(input) then
      || net.isPrivate(input)
      || (cfg.geoIPPath != "" && net.geoip.Some? && net.geoip.value(cfg.geoIPPath, input) == (true, true))
    else Allowed(input, cfg.intlAllowDomains)
  }

  lemma {:induction false} StringsOfArray(ss: seq<string>)
    ensures Strings(StrArray(ss).items) == ss
  {
    if ss != [] {
      var front := ss[..|ss| - 1];
      assert StrArray(ss).items[..|ss| - 1] == StrArray(front).items;
      StringsOfArray(front);
    }
  }

  lemma KindsOfRenderedRules(domains: seq<string>)
    ensures KindOf(PrivateRule()) == Private && KindOf(GeoRule()) == Geo("geoip-ru")
    ensures KindOf(DomainRule(domains)) == Suffix(domains)
    ensures AsString(Field(PrivateRule(), "outbound")) == "direct" && AsString(Field(GeoRule(), "outbound")) == "direct"
    ensures AsString(Field(DomainRule(domains), "outbound")) == "direct"
  {
    StringsOfArray(domains);
    assert "rule_set" != "outbound" && "ip_is_private" != "outbound" && "domain_suffix" != "outbound" by {
      assert |"rule_set"| == 8 && |"outbound"| == 8 && "rule_set"[0] == 'r' && "outbound"[0] == 'o';
      assert |"ip_is_private"| == 13 && |"domain_suffix"| == 13;
    }
    assert "ip_is_private" !in GeoRule() && "ip_is_private" !in DomainRule(domains) && "rule_set" !in DomainRule(domains) by {
      assert |"rule_set"| == 8 && |"outbound"| == 8 && |"ip_is_private"| == 13 && |"domain_suffix"| == 13;
      assert "ip_is_private"[0] == 'i' && "domain_suffix"[0] == 'd' && "rule_set"[0] == 'r' && "outbound"[0] == 'o';
    }
  }

  /**
   For every configuration, destination and set of oracles, evaluating the rendered route answers what the
   configuration promises; an absent matcher or an indeterminate verdict counts as no match.
   */
  lemma RenderedRouteMeansConfig(cfg: Config, d: Decision, input: string, net: Net, k: nat)
    requires k <= |RURoute(cfg).rules| && Decides(d, RURoute(cfg), input, net, k)
    ensures d.outbound == if GoesDirect(cfg, input, net) then "direct" else "proxy"
  {
    hide Allowed;
    var doc := RURoute(cfg);
    KindsOfRenderedRules(cfg.intlAllowDomains);
    assert cfg.geoIPPath != "" ==> SrsPath(doc.ruleSets, "geoip-ru") == cfg.geoIPPath;
    if cfg.intlAllowDomains == [] { NothingAllowed(input); }
    if k < |doc.rules| {
      assert Hit(RuleStep(doc, k, input, net));
    } else {
      forall i | 0 <= i < k ensures !Hit(RuleStep(doc, i, input, net)) { assert !Hit(d.trace[i]); }
      assert !Hit(RuleStep(doc, 0, input, net));
      if cfg.geoIPPath != "" { assert !Hit(RuleStep(doc, 1, input, net)); }
      if cfg.intlAllowDomains != [] { assert !Hit(RuleStep(doc, |doc.rules| - 1, input, net)); }
    }
  }

  lemma NothingAllowed(input: string)
    ensures !Allowed(input, [])
  {
  }

  /**
   A hand-written rule with one suffix, given as a plain string: its outbound below the suffix, else the final one.
   A private flag that is true, and only then, takes the place of the suffix.
   */
  lemma HandWrittenSuffix(flag: Json, suffix: string, outbound: string, final: string, d: Decision, input: string, net: Net, k: nat)
    requires var rule := map["ip_is_private" := flag, "domain_suffix" := Str(suffix), "outbound" := Str(outbound)];
             k <= 1 && Decides(d, RouteDoc([rule], final, []), input, net, k)
    ensures var matches := if flag == Bool(true) then net.isIP(input) && net.isPrivate(input)
                           else !net.isIP(input) && Allowed(input, [suffix]);
            d.outbound == if matches then outbound else if final == "" then "proxy" else final
  {
    hide Allowed;
    var rule: Obj := map["ip_is_private" := flag, "domain_suffix" := Str(suffix), "outbound" := Str(outbound)];
    FieldNamesDiffer();
    assert KindOf(rule) == (if flag == Bool(true) then Private else Suffix([suffix])) && AsString(Field(rule, "outbound")) == outbound;
    var doc := RouteDoc([rule], final, []);
    if k == 1 { assert !Hit(RuleStep(doc, 0, input, net)); } else { assert Hit(RuleStep(doc, 0, input, net)); }
  }

  /** A hand-written rule on rule sets, given as a list: the first tag counts, looked up among the rule sets. */
  lemma HandWrittenRuleSet(tag: string, more: seq<Json>, path: string, outbound: string, d: Decision, input: string, net: Net, k: nat)
    requires var rule := map["rule_set" := Arr([Str(tag)] + more), "outbound" := Str(outbound)];
             k <= 1 && Decides(d, RouteDoc([rule], "proxy", [RuleSet(tag, path)]), input, net, k)
    ensures d.rule == (if net.isIP(input) && net.geoip.Some? && path != "" && net.geoip.value(path, input) == (true, true)
                       then "rule_set:" + tag else "final")
  {
    var rule: Obj := map["rule_set" := Arr([Str(tag)] + more), "outbound" := Str(outbound)];
    FieldNamesDiffer();
    assert KindOf(rule) == Geo(tag);
    var doc := RouteDoc([rule], "proxy", [RuleSet(tag, path)]);
    if k == 1 { assert !Hit(RuleStep(doc, 0, input, net)); } else { assert Hit(RuleStep(doc, 0, input, net)); }
  }

  lemma FieldNamesDiffer()
    ensures "rule_set" != "outbound" && "ip_is_private" != "outbound" && "domain_suffix" != "outbound"
    ensures "ip_is_private" != "domain_suffix" && "ip_is_private" != "rule_set" && "rule_set" != "domain_suffix"
  {
    assert |"rule_set"| == 8 && |"outbound"| == 8 && "rule_set"[0] == 'r' && "outbound"[0] == 'o';
    assert |"ip_is_private"| == 13 && |"domain_suffix"| == 13 && "ip_is_private"[0] == 'i' && "domain_suffix"[0] == 'd';
  }

  /** The operator's question end to end: where would traffic to this destination go? */
  method WhereTo(cfg: Config, rawInput: string, net: Net) returns (r: Result<Decision, Error>)
    ensures var input := Text.TrimSpace(rawInput);
            if input == "" then r == Err(EmptyDestination)
            else r.Ok? && r.value.outbound == if GoesDirect(cfg, input, net) then "direct" else "proxy"
  {
    hide Text.TrimSpace;
    var doc := RenderRURoute(cfg);
    r := Evaluate(Some(doc), rawInput, net);
    ghost var input := Text.TrimSpace(rawInput);
    if input != "" {
      ghost var k :| 0 <= k <= |doc.rules| && Decides(r.value, doc, input, net, k);
      assert r.value.outbound == if GoesDirect(cfg, input, net) then "direct" else "proxy";
    }
  }
}
