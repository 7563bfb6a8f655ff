/**
 Per-deployment structure: the seed of internal/state/config.go, the Fisher-Yates rule order it drives, and
 the reordered client rules of internal/subscription/subscription.go with their first-match meaning.
 */
module RuleOrder {
  import opened Permutation

  const MOD64: int := 0x1_0000_0000_0000_0000
  type U64 = x: int | 0 <= x < 0x1_0000_0000_0000_0000

  // ---- the seed ----

  type Byte = x: int | 0 <= x < 256

  function Exp2(n: nat): nat { if n == 0 then 1 else 2 * Exp2(n - 1) }

  /** Exclusive-or of the lowest bits. */
  function Xor(x: nat, y: nat, bits: nat): (r: nat)
    ensures r < Exp2(bits)
    decreases bits
  {
    if bits == 0 then 0 else (x + y) % 2 + 2 * Xor(x / 2, y / 2, bits - 1)
  }

  /** Exclusive-or of a byte into the low byte of the hash. */
  function XorLowByte(h: U64, b: Byte): U64 {
    var high := h / 256;
    assert high < 0x100_0000_0000_0000 && Exp2(8) == 256;
    high * 256 + Xor(h % 256, b, 8)
  }

  const FNV_PRIME := 0x100_0000_01B3

  /** 64-bit FNV-1a */
  function Fnv1a(bytes: seq<Byte>): U64 {
    if bytes == [] then 14695981039346656037
    else XorLowByte(Fnv1a(bytes[..|bytes| - 1]), bytes[|bytes| - 1]) * FNV_PRIME % MOD64
  }

  /** The stable seed of a deployment; 0 stands for an unconfigured one. */
  function StructSeed(tunnelUuid: seq<Byte>): U64 {
    if tunnelUuid == [] then 0 else Fnv1a(tunnelUuid)
  }

  /** The prime has an inverse modulo 2^64, so that multiplying by it loses nothing. */
  lemma TimesPrimeIsInjective(x: U64, y: U64)
    requires x * FNV_PRIME % MOD64 == y * FNV_PRIME % MOD64
    ensures x == y
  {
    var inverse, q := 14886173955864302971, 887285111055;
    assert FNV_PRIME * inverse == 1 + q * MOD64;
    var k := x * FNV_PRIME / MOD64 - y * FNV_PRIME / MOD64;
    assert (x - y) * FNV_PRIME == k * MOD64;
    assert (x - y) * (1 + q * MOD64) == k * MOD64 * inverse;
    assert x - y == (k * inverse - (x - y) * q) * MOD64;
    OnlyZeroFits(x - y, k * inverse - (x - y) * q);
  }

  lemma OnlyZeroFits(d: int, t: int)
    requires d == t * MOD64 && -MOD64 < d < MOD64
    ensures d == 0
  {
  }

  lemma {:induction false} XorIsInjective(x: nat, x': nat, y: nat, y': nat, bits: nat)
    requires x < Exp2(bits) && x' < Exp2(bits) && y < Exp2(bits) && y' < Exp2(bits)
    requires Xor(x, y, bits) == Xor(x', y', bits)
    ensures x == x' <==> y == y'
    decreases bits
  {
    hide Xor;
    if bits > 0 {
      XorDigits(x, y, bits);
      XorDigits(x', y', bits);
      XorIsInjective(x / 2, x' / 2, y / 2, y' / 2, bits - 1);
      ParityTells(x, x', y, y');
    }
  }

  lemma XorDigits(x: nat, y: nat, bits: nat)
    requires bits > 0
    ensures Xor(x, y, bits) % 2 == (x + y) % 2 && Xor(x, y, bits) / 2 == Xor(x / 2, y / 2, bits - 1)
  {
  }

  lemma ParityTells(x: nat, x': nat, y: nat, y': nat)
    requires (x + y) % 2 == (x' + y') % 2 && (x / 2 == x' / 2 <==> y / 2 == y' / 2)
    ensures x == x' <==> y == y'
  {
  }

  lemma XorLowByteIsInjective(h: U64, h': U64, b: Byte, b': Byte)
    requires XorLowByte(h, b) == XorLowByte(h', b')
    ensures h == h' <==> b == b'
  {
    hide Xor;
    assert Exp2(8) == 256;
    XorIsInjective(h % 256, h' % 256, b, b', 8);
  }

  /** What the hash has told apart stays apart, whatever bytes follow. */
  lemma {:induction false} Fnv1aRemembers(a: seq<Byte>, a': seq<Byte>, rest: seq<Byte>)
    requires Fnv1a(a + rest) == Fnv1a(a' + rest)
    ensures Fnv1a(a) == Fnv1a(a')
  {
    if rest == [] {
      assert a + rest == a && a' + rest == a';
    } else {
      hide XorLowByte;
      var n := |rest| - 1;
      Fnv1aOneMore(a, rest);
      Fnv1aOneMore(a', rest);
      var h, h' := Fnv1a(a + rest[..n]), Fnv1a(a' + rest[..n]);
      TimesPrimeIsInjective(XorLowByte(h, rest[n]), XorLowByte(h', rest[n]));
      XorLowByteIsInjective(h, h', rest[n], rest[n]);
      Fnv1aRemembers(a, a', rest[..n]);
    }
  }

  lemma Fnv1aOneMore(a: seq<Byte>, rest: seq<Byte>)
    requires rest != []
    ensures var n := |rest| - 1;
            Fnv1a(a + rest) == XorLowByte(Fnv1a(a + rest[..n]), rest[n]) * FNV_PRIME % MOD64
  {
    hide XorLowByte;
    assert (a + rest)[..|a + rest| - 1] == a + rest[..|rest| - 1];
  }

  /** Deployments whose tunnel UUIDs differ in one byte have different seeds. */
  lemma OneByteChangesSeed(pre: seq<Byte>, b: Byte, b': Byte, post: seq<Byte>)
    requires b != b'
    ensures StructSeed(pre + [b] + post) != StructSeed(pre + [b'] + post)
  {
    hide XorLowByte;
    if Fnv1a(pre + [b] + post) == Fnv1a(pre + [b'] + post) {
      Fnv1aRemembers(pre + [b], pre + [b'], post);
      Fnv1aOneMore(pre, [b]);
      Fnv1aOneMore(pre, [b']);
      var h := Fnv1a(pre);
      assert pre + [b][..0] == pre && pre + [b'][..0] == pre;
      TimesPrimeIsInjective(XorLowByte(h, b), XorLowByte(h, b'));
      XorLowByteIsInjective(h, h, b, b');
    }
  }

  /** The published test vectors of 64-bit FNV-1a for the empty string and for "a"; no UUID is seed 0. */
  lemma SeedVectors()
    ensures Fnv1a([]) == 0xCBF2_9CE4_8422_2325 && StructSeed([0x61]) == 0xAF63_DC4C_8601_EC8C && StructSeed([]) == 0
  {
    hide XorLowByte;
    assert [0x61][..0] == [];
    assert XorLowByte(0xCBF2_9CE4_8422_2325, 0x61) == 0xCBF2_9CE4_8422_2344 by { FirstXor(); }
  }

  lemma FirstXor()
    ensures XorLowByte(0xCBF2_9CE4_8422_2325, 0x61) == 0xCBF2_9CE4_8422_2344
  {
    hide Xor;
    XorStep(0x25, 0x61, 8);
    XorStep(18, 48, 7);
    XorStep(9, 24, 6);
    XorStep(4, 12, 5);
    XorStep(2, 6, 4);
    XorStep(1, 3, 3);
    XorStep(0, 1, 2);
    XorStep(0, 0, 1);
  }

  lemma XorStep(x: nat, y: nat, bits: nat)
    requires bits > 0
    ensures Xor(x, y, bits) == (x + y) % 2 + 2 * Xor(x / 2, y / 2, bits - 1) && Xor(x, y, 0) == 0
  {
  }

  // ---- the shuffle ----

  function Identity(n: nat): seq<nat> { seq(n, i => i) }

  /** One step of the generator, wrapping at 64 bits. */
  function Lcg(s: U64): U64 { (s * 6364136223846793005 + 1442695040888963407) % MOD64 }

  /** The swap partner of position `i`: the high bits of the state, reduced to 0..i. */
  function Partner(s: U64, i: nat): nat { s / 0x2_0000_0000 % (i + 1) }

  function Swapped<T>(a: seq<T>, i: nat, j: nat): (b: seq<T>)
    requires i < |a| && j < |a|
  {
    a[i := a[j]][j := a[i]]
  }

  /** Choices for the positions i, i-1, ..., 1, each at most its position. */
  ghost predicate ValidChoices(js: seq<nat>, i: nat) {
    |js| == i && forall m :: 0 <= m < i ==> js[m] <= i - m
  }

  /** The swap loop for positions i, i-1, ..., 1 under given choices. */
  function Shuffled<T>(a: seq<T>, i: nat, js: seq<nat>): (r: seq<T>)
    requires i < |a| && ValidChoices(js, i)
    ensures |r| == |a|
    decreases i
  {
    if i == 0 then a else Shuffled(Swapped(a, i, js[0]), i - 1, js[1..])
  }

  /** The choices the generator makes from state `s`. */
  function Choices(s: U64, i: nat): (js: seq<nat>)
    ensures ValidChoices(js, i)
    decreases i
  {
    if i == 0 then [] else [Partner(Lcg(s), i)] + Choices(Lcg(s), i - 1)
  }

  function Order(seed: U64, n: nat): seq<nat> {
    if seed == 0 || n == 0 then Identity(n) else Shuffled(Identity(n), n - 1, Choices(seed, n - 1))
  }

  method RuleOrder(tunnelUuid: seq<Byte>, n: nat) returns (order: array<nat>)
    ensures fresh(order) && order[..] == Order(StructSeed(tunnelUuid), n)
  {
    hide StructSeed;
    var seed := StructSeed(tunnelUuid);
    order := new nat[n](i => i);
    assert order[..] == Identity(n);
    if seed == 0 || n == 0 {
      return;
    }
    var s := seed;
    for i := n - 1 downto 0
      invariant fresh(order) && order.Length == n
      invariant Order(seed, n) == Shuffled(order[..], i, Choices(s, i))
    {
      s := Lcg(s);
      var j := Partner(s, i + 1);
      ghost var before := order[..];
      order[i + 1], order[j] := order[j], order[i + 1];
      assert order[..] == Swapped(before, i + 1, j);
    }
  }

  lemma {:induction false} ShuffledPermutes<T>(a: seq<T>, i: nat, js: seq<nat>)
    requires i < |a| && ValidChoices(js, i)
    ensures var r := Shuffled(a, i, js);
            |r| == |a| && multiset(r) == multiset(a) && forall k :: i < k < |a| ==> r[k] == a[k]
    decreases i
  {
    if i > 0 { ShuffledPermutes(Swapped(a, i, js[0]), i - 1, js[1..]); }
  }

  /** For every length and every 64-bit seed the order is a permutation; seed 0 gives the identity. */
  lemma OrderIsPermutation(seed: U64, n: nat)
    ensures IsPermutation(Order(seed, n), n)
    ensures seed == 0 ==> forall k :: 0 <= k < n ==> Order(seed, n)[k] == k
  {
    if seed != 0 && n > 0 {
      var r := Order(seed, n);
      ShuffledPermutes(Identity(n), n - 1, Choices(seed, n - 1));
      SameMultisetDistinct(Identity(n), r);
      forall k | 0 <= k < n ensures r[k] < n { assert r[k] in multiset(Identity(n)); }
    }
  }

  /** The deployments are spread over all six orders of three rules; these seeds pin the generator down. */
  lemma EveryOrderOfThreeIsTaken(order: seq<nat>) returns (seed: U64)
    requires IsPermutation(order, 3)
    ensures seed != 0 && Order(seed, 3) == order
  {
    hide Order;
    FirstSeeds();
    assert order == [order[0], order[1], order[2]];
    seed := if order[0] == 0 then (if order[1] == 1 then 1 else 5)
            else if order[0] == 1 then (if order[1] == 0 then 4 else 107)
            else if order[1] == 0 then 2 else 130;
  }

  lemma FirstSeeds()
    ensures Order(1, 3) == [0, 1, 2] && Order(2, 3) == [2, 0, 1] && Order(4, 3) == [1, 0, 2]
    ensures Order(5, 3) == [0, 2, 1] && Order(107, 3) == [1, 2, 0] && Order(130, 3) == [2, 1, 0]
  {
    hide Order;
    OrderOfThree(1, 0, 7806831264735756412, 2693360814615201578, 9396908728118811419, 2, 1);
    OrderOfThree(2, 0, 14170967488582549417, 4888991095701120820, 16917806452429146372, 1, 0);
    OrderOfThree(4, 1, 8452495862566583811, 2916115434026166300, 13512857827340264662, 2, 0);
    OrderOfThree(5, 1, 14816632086413376816, 5111745715112085543, 2587011477941047999, 1, 1);
    OrderOfThree(107, 36, 18322484338951956766, 6321266551238093093, 13402072335503596949, 0, 0);
    OrderOfThree(130, 44, 17123664897751782953, 5907673225439891629, 1915279257545784708, 0, 1);
  }

  /** The order of three rules from the two states that the generator steps through; the `q` are what wraps around. */
  lemma OrderOfThree(seed: U64, q1: nat, s1: U64, q2: nat, s2: U64, j: nat, k: nat)
    requires seed != 0 && seed * 6364136223846793005 + 1442695040888963407 == q1 * MOD64 + s1
    requires s1 * 6364136223846793005 + 1442695040888963407 == q2 * MOD64 + s2
    requires j == s1 / 0x2_0000_0000 % 3 && k == s2 / 0x2_0000_0000 % 2
    ensures Order(seed, 3) == Swapped(Swapped([0, 1, 2], 2, j), 1, k)
  {
    hide Lcg, Partner;
    LcgWraps(seed, q1, s1);
    LcgWraps(s1, q2, s2);
    PartnerOfThree(s1, s2);
    assert Identity(3) == [0, 1, 2];
    assert Choices(s2, 0) == [] && Choices(s1, 1) == [k] + [] && Choices(seed, 2) == [j] + [k];
    assert ([j] + [k])[1..] == [k];
  }

  lemma LcgWraps(s: U64, q: nat, next: U64)
    requires s * 6364136223846793005 + 1442695040888963407 == q * MOD64 + next
    ensures Lcg(s) == next
  {
  }

  lemma PartnerOfThree(s1: U64, s2: U64)
    ensures Partner(s1, 2) == s1 / 0x2_0000_0000 % 3 && Partner(s2, 1) == s2 / 0x2_0000_0000 % 2
  {
  }

  lemma ShuffledTop<T>(a: seq<T>, i: nat, js: seq<nat>)
    requires 0 < i < |a| && ValidChoices(js, i)
    ensures Shuffled(a, i, js)[i..] == [a[js[0]]] + a[i + 1..]
  {
    ShuffledPermutes(Swapped(a, i, js[0]), i - 1, js[1..]);
  }

  /** Different choices give different orders. */
  lemma {:induction false} ShuffledInjective<T>(a: seq<T>, i: nat, js: seq<nat>, ks: seq<nat>)
    requires i < |a| && Distinct(a) && ValidChoices(js, i) && ValidChoices(ks, i)
    requires Shuffled(a, i, js) == Shuffled(a, i, ks)
    ensures js == ks
    decreases i
  {
    if i > 0 {
      ShuffledTop(a, i, js);
      ShuffledTop(a, i, ks);
      assert a[js[0]] == Shuffled(a, i, js)[i..][0] == a[ks[0]];
      assert js[0] == ks[0];
      ShuffledInjective(Swapped(a, i, js[0]), i - 1, js[1..], ks[1..]);
      assert js == [js[0]] + js[1..] && ks == [ks[0]] + ks[1..];
    }
  }

  /** And every permutation is reached: the choices stand for the permutations one to one. */
  lemma {:induction false} ShuffledSurjective<T>(a: seq<T>, i: nat, p: seq<T>) returns (js: seq<nat>)
    requires i < |a| == |p| && multiset(a) == multiset(p) && a[i + 1..] == p[i + 1..]
    ensures ValidChoices(js, i) && Shuffled(a, i, js) == p
    decreases i
  {
    var j := FindPartner(a, i, p);
    if i == 0 {
      js := [];
      assert a == [a[0]] + a[1..] && p == [p[0]] + p[1..];
    } else {
      var b := Swapped(a, i, j);
      SwapInPlace(a, i, j, p);
      var rest := ShuffledSurjective(b, i - 1, p);
      js := [j] + rest;
      assert js[1..] == rest;
    }
  }

  lemma SwapInPlace<T>(a: seq<T>, i: nat, j: nat, p: seq<T>)
    requires i < |a| == |p| && j <= i && a[j] == p[i] && a[i + 1..] == p[i + 1..]
    ensures multiset(Swapped(a, i, j)) == multiset(a) && Swapped(a, i, j)[i..] == p[i..]
  {
    assert Swapped(a, i, j)[i..] == [p[i]] + a[i + 1..] && p[i..] == [p[i]] + p[i + 1..];
  }

  lemma FindPartner<T>(a: seq<T>, i: nat, p: seq<T>) returns (j: nat)
    requires i < |a| == |p| && multiset(a) == multiset(p) && a[i + 1..] == p[i + 1..]
    ensures j <= i && a[j] == p[i]
  {
    var front := a[..i + 1];
    assert a == front + a[i + 1..] && p == p[..i + 1] + p[i + 1..];
    assert multiset(a) == multiset(front) + multiset(a[i + 1..]);
    assert multiset(p) == multiset(p[..i + 1]) + multiset(p[i + 1..]);
    assert p[i] == p[..i + 1][i];
    assert p[i] in multiset(p[..i + 1]);
    assert multiset(front) == multiset(a) - multiset(a[i + 1..]) == multiset(p) - multiset(p[i + 1..]) == multiset(p[..i + 1]);
    assert p[i] in multiset(front);
    j :| 0 <= j < |front| && front[j] == p[i];
  }

  // ---- first-match routing ----

  datatype Match = IpIsPrivate | ProtocolQuic | NetworkUdpPort443 | ProtocolBittorrent
  datatype Rule = Rule(when: Match, outbound: string)

  /** The outbound of the first rule that matches, else the final one; `hit` says what matches. */
  function FirstMatch(rules: seq<Rule>, final: string, hit: Match -> bool): string {
    if rules == [] then final
    else if hit(rules[0].when) then rules[0].outbound
    else FirstMatch(rules[1..], final, hit)
  }

  const BLOCK_RULES: seq<Rule> :=
    [Rule(ProtocolQuic, "block"), Rule(NetworkUdpPort443, "block"), Rule(ProtocolBittorrent, "block")]

  method OrderedBlockRules(tunnelUuid: seq<Byte>) returns (out: seq<Rule>)
    ensures var order := Order(StructSeed(tunnelUuid), 3);
            IsPermutation(order, |BLOCK_RULES|) && out == Reordered(BLOCK_RULES, order)
  {
    hide StructSeed, Order, Fnv1a;
    ghost var seed := StructSeed(tunnelUuid);
    var order := RuleOrder(tunnelUuid, |BLOCK_RULES|);
    OrderIsPermutation(seed, 3);
    var rules := new Rule[|BLOCK_RULES|](_ => BLOCK_RULES[0]);
    for dst := 0 to order.Length
      invariant order[..] == Order(seed, 3)
      invariant forall k :: 0 <= k < dst ==> rules[k] == BLOCK_RULES[order[..][k]]
    {
      assert order[..][dst] < 3;
      rules[dst] := BLOCK_RULES[order[dst]];
    }
    out := rules[..];
  }

  /** What the client rules stand for: private addresses go direct, the three shapes are blocked, the rest is tunnelled. */
  function ClientRoute(hit: Match -> bool): string {
    if hit(IpIsPrivate) then "direct"
    else if hit(ProtocolQuic) || hit(NetworkUdpPort443) || hit(ProtocolBittorrent) then "block"
    else "rdda"
  }

  /** The client route, whose block rules stand in the deployment's order. */
  method ClientRules(tunnelUuid: seq<Byte>) returns (rules: seq<Rule>, final: string)
    ensures final == "rdda" && rules == RulesFor(StructSeed(tunnelUuid))
    ensures forall hit :: FirstMatch(rules, final, hit) == ClientRoute(hit)
  {
    hide StructSeed, Order, FirstMatch, ClientRoute;
    var blocks := OrderedBlockRules(tunnelUuid);
    rules, final := [Rule(IpIsPrivate, "direct")] + blocks, "rdda";
    forall hit ensures FirstMatch(rules, final, hit) == ClientRoute(hit) {
      RulesMeanClientRoute(StructSeed(tunnelUuid), hit);
    }
  }

  ghost function RulesFor(seed: U64): seq<Rule> {
    OrderIsPermutation(seed, 3);
    [Rule(IpIsPrivate, "direct")] + Reordered(BLOCK_RULES, Order(seed, 3))
  }

  lemma {:induction false} FirstMatchSkips(pre: seq<Rule>, run: seq<Rule>, other: seq<Rule>, final: string, hit: Match -> bool)
    requires FirstMatch(run, final, hit) == FirstMatch(other, final, hit)
    ensures FirstMatch(pre + run, final, hit) == FirstMatch(pre + other, final, hit)
  {
    if pre == [] {
      assert pre + run == run && pre + other == other;
    } else {
      assert (pre + run)[1..] == pre[1..] + run && (pre + other)[1..] == pre[1..] + other;
      FirstMatchSkips(pre[1..], run, other, final, hit);
    }
  }

  ghost predicate AnyHit(run: seq<Rule>, hit: Match -> bool) {
    exists r :: r in run && hit(r.when)
  }

  /** A run of rules with one outbound acts as a single rule: its order cannot be seen. */
  lemma {:induction false} UniformRun(run: seq<Rule>, post: seq<Rule>, outbound: string, final: string, hit: Match -> bool)
    requires forall r :: r in run ==> r.outbound == outbound
    ensures FirstMatch(run + post, final, hit) == if AnyHit(run, hit) then outbound else FirstMatch(post, final, hit)
  {
    if run == [] {
      assert run + post == post;
    } else {
      assert (run + post)[1..] == run[1..] + post;
      UniformRun(run[1..], post, outbound, final, hit);
      assert run == [run[0]] + run[1..];
      assert AnyHit(run, hit) <==> hit(run[0].when) || AnyHit(run[1..], hit);
    }
  }

  /** Permuting a contiguous run of rules that share an outbound changes no decision. */
  lemma PermutedRunKeepsMeaning(pre: seq<Rule>, run: seq<Rule>, run': seq<Rule>, post: seq<Rule>, outbound: string,
                                final: string, hit: Match -> bool)
    requires multiset(run) == multiset(run') && forall r :: r in run ==> r.outbound == outbound
    ensures FirstMatch(pre + (run + post), final, hit) == FirstMatch(pre + (run' + post), final, hit)
  {
    forall r ensures r in run <==> r in run' { assert r in multiset(run) <==> r in multiset(run'); }
    UniformRun(run, post, outbound, final, hit);
    UniformRun(run', post, outbound, final, hit);
    FirstMatchSkips(pre, run + post, run' + post, final, hit);
  }

  /** For every deployment seed and every reading of the match conditions, clients route as with the canonical order. */
  lemma ReorderingKeepsRouting(seed: U64, hit: Match -> bool)
    ensures FirstMatch(RulesFor(seed), "rdda", hit) == FirstMatch(RulesFor(0), "rdda", hit)
  {
    hide Order, FirstMatch;
    OrderIsPermutation(seed, 3);
    OrderIsPermutation(0, 3);
    var run, canonical := Reordered(BLOCK_RULES, Order(seed, 3)), Reordered(BLOCK_RULES, Order(0, 3));
    ReorderedPermutes(BLOCK_RULES, Order(seed, 3));
    ReorderedPermutes(BLOCK_RULES, Order(0, 3));
    assert run + [] == run && canonical + [] == canonical;
    forall r | r in run ensures r.outbound == "block" { assert r in multiset(run) && r in BLOCK_RULES; }
    PermutedRunKeepsMeaning([Rule(IpIsPrivate, "direct")], run, canonical, [], "block", "rdda", hit);
  }

  lemma RulesMeanClientRoute(seed: U64, hit: Match -> bool)
    ensures FirstMatch(RulesFor(seed), "rdda", hit) == ClientRoute(hit)
  {
    ReorderingKeepsRouting(seed, hit);
    OrderIsPermutation(0, 3);
    assert Reordered(BLOCK_RULES, Order(0, 3)) == BLOCK_RULES;
    FirstMatchOfBlocks(hit);
  }

  lemma FirstMatchOfBlocks(hit: Match -> bool)
    ensures FirstMatch([Rule(IpIsPrivate, "direct")] + BLOCK_RULES, "rdda", hit) == ClientRoute(hit)
  {
    var b := BLOCK_RULES;
    assert ([Rule(IpIsPrivate, "direct")] + b)[1..] == b;
    assert b[1..] == [b[1], b[2]] && [b[1], b[2]][1..] == [b[2]] && [b[2]][1..] == [];
  }

  // ---- multiplex parameters ----

  const MUX_PROTOCOLS: seq<string> := ["h2mux", "smux", "yamux"]

  function MuxProtocol(seed: U64): string {
    if seed == 0 then "h2mux" else MUX_PROTOCOLS[seed % 3]
  }

  function MuxStreams(seed: U64): int {
    if seed == 0 then 8 else 4 + seed / 256 % 13
  }

  /** Every deployment gets a protocol and a stream count the other end negotiates. */
  lemma MuxParametersAreValid(seed: U64)
    ensures MuxProtocol(seed) in MUX_PROTOCOLS && 4 <= MuxStreams(seed) <= 16
    ensures MuxProtocol(0) == "h2mux" && MuxStreams(0) == 8
    ensures MuxProtocol(1) == "smux" && MuxProtocol(2) == "yamux" && MuxStreams(0x0CFF) == 16
  {
  }

  /** Deployments are spread over every bucket: each protocol goes with each stream count. */
  lemma MuxParametersAreSpread(protocol: string, streams: nat) returns (seed: U64)
    requires protocol in MUX_PROTOCOLS && 4 <= streams <= 16
    ensures seed != 0 && MuxProtocol(seed) == protocol && MuxStreams(seed) == streams
  {
    var p: nat :| p < 3 && MUX_PROTOCOLS[p] == protocol;
    seed := 256 * (streams - 4) + 3 + (p - (streams - 4)) % 3;
  }
}
