/**
 * The module-wrap serializer: every module becomes a `define(<id>, ...)` unit
 * whose `require('<specifier>')` calls are rewritten to `require(<id>)`, the
 * units are emitted in reverse traversal order after the runtime preamble,
 * and a bootstrap call that requires module 0 closes the bundle.
 */
module WrapSerializer {
  import opened Wrappers
  import opened OrderedMaps
  import opened Text
  import opened GraphBuilder

  const DefineHead: string := "define("
  const FunctionHead: string := ", function(module, exports, require) {\n"
  const DefineTail: string := "});"

  /** The last line of every bundle. */
  const Bootstrap: string := "requireModule(0);"

  /** `wrapModule(id, code)`. */
  function WrapModule(id: nat, code: string): string {
    DefineHead + (NatToString(id) + (FunctionHead + (code + DefineTail)))
  }

  /** Reads a unit back into its id and its body; `None` for anything not of that shape. */
  function UnwrapModule(unit: string): Option<(nat, string)> {
    Unframe(DefineHead, FunctionHead, DefineTail, unit)
  }

  /**
   * Splits `head + numeral + middle + body + tail` into the numeral's value
   * and the body, for any three fixed pieces.
   */
  function Unframe(head: string, middle: string, tail: string, unit: string): Option<(nat, string)> {
    if |unit| < |head| || unit[..|head|] != head then None
    else
      var rest := unit[|head|..];
      var k := LeadingDigits(rest);
      var body := rest[k..];
      if k == 0 || |body| < |middle| + |tail| then None
      else if body[..|middle|] != middle || body[|body| - |tail|..] != tail then None
      else Some((ParseDigits(rest[..k]), body[|middle|..|body| - |tail|]))
  }

  /** The three parts of `a + (m + t)` are recovered by slicing. */
  lemma SliceParts(a: string, m: string, t: string)
    ensures var s := a + (m + t);
      && s[..|a|] == a
      && s[|a|..] == m + t
      && s[|s| - |t|..] == t
      && s[|a|..|s| - |t|] == m
  {
  }

  /** Framing a numeral and a body and splitting the result gives both back. */
  lemma UnframeFrame(head: string, middle: string, tail: string, id: nat, code: string)
    requires middle != [] && !IsDigit(middle[0])
    ensures Unframe(head, middle, tail, head + (NatToString(id) + (middle + (code + tail)))) == Some((id, code))
  {
    var digits := NatToString(id);
    var body := middle + (code + tail);
    SliceParts(head, digits, body);
    assert body[0] == middle[0];
    LeadingDigitsOfNumeral(digits, body);
    SliceParts(digits, body, []);
    SliceParts(middle, code, tail);
    ParseNatToString(id);
  }

  /** A wrapped unit carries exactly its id and its code: unwrapping gives both back. */
  lemma WrapRoundTrip(id: nat, code: string)
    ensures UnwrapModule(WrapModule(id, code)) == Some((id, code))
  {
    assert FunctionHead[0] == ',';
    UnframeFrame(DefineHead, FunctionHead, DefineTail, id, code);
  }

  /**
   * The characters a specifier must avoid for the source's pattern to match it
   * literally: the source escapes only `/` and `.`, so any other regular
   * expression metacharacter would change what the pattern means.
   */
  predicate PlainSpecifier(spec: Specifier) {
    forall i :: 0 <= i < |spec| ==> !IsMetacharacter(spec[i])
  }

  /** The regular expression metacharacters other than `/` and `.`. */
  predicate IsMetacharacter(c: char) {
    || c == '\\' || c == '^' || c == '$' || c == '*' || c == '+' || c == '?'
    || c == '(' || c == ')' || c == '[' || c == ']' || c == '{' || c == '}' || c == '|'
  }

  /** `require(` quote specifier quote `)`, for one kind of quote. */
  function RequireCall(spec: Specifier, quote: char): string {
    "require(" + [quote] + spec + [quote] + ")"
  }

  /** The pattern `require\((['"])spec\1\)` matches at position `i`. */
  predicate MatchesAt(code: string, i: nat, spec: Specifier)
    requires i <= |code|
  {
    RequireCall(spec, '\'') <= code[i..] || RequireCall(spec, '"') <= code[i..]
  }

  /** The pattern matches nowhere in `code`. */
  predicate NoRequireOf(code: string, spec: Specifier) {
    forall j :: 0 <= j <= |code| ==> !MatchesAt(code, j, spec)
  }

  /** Both quoted forms have the same length. */
  function MatchLength(spec: Specifier): (n: nat)
    ensures n == |RequireCall(spec, '\'')| && n == |RequireCall(spec, '"')|
  {
    |spec| + 11
  }

  /** The leftmost position at or after `from` where the pattern matches. */
  function FindRequire(code: string, spec: Specifier, from: nat): (r: Option<nat>)
    requires from <= |code|
    ensures r.Some? ==> from <= r.value && r.value + MatchLength(spec) <= |code| && MatchesAt(code, r.value, spec)
    ensures r.Some? ==> forall j :: from <= j < r.value ==> !MatchesAt(code, j, spec)
    ensures r.None? ==> forall j :: from <= j <= |code| ==> !MatchesAt(code, j, spec)
    decreases |code| - from
  {
    if MatchesAt(code, from, spec) then Some(from)
    else if from == |code| then None
    else FindRequire(code, spec, from + 1)
  }

  /**
   * `code.replace(pattern, replacement)` with a non-global pattern: the
   * leftmost match, if any, is replaced (see the two lemmas below).
   */
  function ReplaceFirst(code: string, spec: Specifier, replacement: string): string
    requires PlainSpecifier(spec)
  {
    match FindRequire(code, spec, 0)
    case None => code
    case Some(i) => code[..i] + replacement + code[i + MatchLength(spec)..]
  }

  /** Code without a match comes out identical. */
  lemma ReplaceFirstNoMatch(code: string, spec: Specifier, replacement: string)
    requires PlainSpecifier(spec) && NoRequireOf(code, spec)
    ensures ReplaceFirst(code, spec, replacement) == code
  {
  }

  /**
   * Exactly the leftmost match is replaced, and every character before and
   * after it is kept.
   */
  lemma ReplaceFirstLeftmost(code: string, spec: Specifier, replacement: string, i: nat)
    requires PlainSpecifier(spec)
    requires i <= |code| && MatchesAt(code, i, spec)
    requires forall j :: 0 <= j < i ==> !MatchesAt(code, j, spec)
    ensures i + MatchLength(spec) <= |code|
    ensures ReplaceFirst(code, spec, replacement) == code[..i] + replacement + code[i + MatchLength(spec)..]
  {
    var found := FindRequire(code, spec, 0);
    assert found.Some?;
    assert found.value == i;
  }

  /** The call a dependency's specifier is rewritten to. */
  function RequireId(id: nat): string {
    "require(" + NatToString(id) + ")"
  }

  /** Every dependency of `m` is a module of the table, and every specifier is plain. */
  ghost predicate Rewritable(modules: Modules, m: Module) {
    && m.dependencyMap.Valid()
    && (forall s :: s in m.dependencyMap.entries ==> m.dependencyMap.entries[s] in modules.entries)
    && (forall s :: s in m.dependencyMap.entries ==> PlainSpecifier(s))
  }

  /** `m`'s code after its first `k` dependency edges have been rewritten, in dependency-map order. */
  function RewriteRequires(modules: Modules, m: Module, k: nat): string
    requires Rewritable(modules, m) && k <= |m.dependencyMap.keys|
  {
    if k == 0 then m.code
    else
      var spec := m.dependencyMap.keys[k - 1];
      var dependency := modules.entries[m.dependencyMap.entries[spec]];
      ReplaceFirst(RewriteRequires(modules, m, k - 1), spec, RequireId(dependency.id))
  }

  /** Code that holds no require call of any of its specifiers comes out unchanged. */
  lemma {:induction false} RewriteWithoutCalls(modules: Modules, m: Module, k: nat)
    requires Rewritable(modules, m) && k <= |m.dependencyMap.keys|
    requires forall s :: s in m.dependencyMap.entries ==> NoRequireOf(m.code, s)
    ensures RewriteRequires(modules, m, k) == m.code
  {
    if k > 0 {
      RewriteWithoutCalls(modules, m, k - 1);
      var spec := m.dependencyMap.keys[k - 1];
      assert spec in m.dependencyMap.entries;
      ReplaceFirstNoMatch(m.code, spec, RequireId(modules.entries[m.dependencyMap.entries[spec]].id));
    }
  }

  /**
   * Edge `k` of the dependency map rewrites the leftmost call of its
   * specifier in the code the earlier edges left, into a call of the
   * dependency's id, and keeps everything around it.
   */
  lemma RewriteEdge(modules: Modules, m: Module, k: nat, i: nat)
    requires Rewritable(modules, m) && k < |m.dependencyMap.keys|
    requires var code := RewriteRequires(modules, m, k);
      && i <= |code| && MatchesAt(code, i, m.dependencyMap.keys[k])
      && forall j :: 0 <= j < i ==> !MatchesAt(code, j, m.dependencyMap.keys[k])
    ensures var code := RewriteRequires(modules, m, k);
      var spec := m.dependencyMap.keys[k];
      var dependency := modules.entries[m.dependencyMap.entries[spec]];
      && i + MatchLength(spec) <= |code|
      && RewriteRequires(modules, m, k + 1) == code[..i] + RequireId(dependency.id) + code[i + MatchLength(spec)..]
  {
    var spec := m.dependencyMap.keys[k];
    assert spec in m.dependencyMap.entries;
    var dependency := modules.entries[m.dependencyMap.entries[spec]];
    ReplaceFirstLeftmost(RewriteRequires(modules, m, k), spec, RequireId(dependency.id), i);
  }

  /**
   * Only the first call per edge is rewritten: a module that requires the
   * same specifier twice keeps the second call, still addressed by specifier.
   */
  lemma OnlyFirstCallRewritten(spec: Specifier, id: nat)
    requires PlainSpecifier(spec)
    ensures var call := RequireCall(spec, '\'');
      var rewritten := ReplaceFirst(call + call, spec, RequireId(id));
      && rewritten == RequireId(id) + call
      && MatchesAt(rewritten, |RequireId(id)|, spec)
  {
    var call := RequireCall(spec, '\'');
    var code := call + call;
    assert code[0..] == code;
    assert MatchesAt(code, 0, spec);
    ReplaceFirstLeftmost(code, spec, RequireId(id), 0);
    assert code[..0] == [];
    assert code[MatchLength(spec)..] == call;
    var rewritten := RequireId(id) + call;
    assert rewritten[|RequireId(id)|..] == call;
  }

  /** The table is well-formed, closed under dependencies, and its specifiers are plain. */
  ghost predicate Serializable(modules: Modules) {
    && WellFormed(modules)
    && (forall p :: p in modules.entries ==> Rewritable(modules, modules.entries[p]))
  }

  /** Module `p`'s code with every edge of its dependency map rewritten. */
  function Rewritten(modules: Modules, p: Path): string
    requires Serializable(modules) && p in modules.entries
  {
    var m := modules.entries[p];
    RewriteRequires(modules, m, |m.dependencyMap.keys|)
  }

  /** The unit emitted for module `p`: its rewritten code, wrapped under its id. */
  function Unit(modules: Modules, p: Path): string
    requires Serializable(modules) && p in modules.entries
  {
    WrapModule(modules.entries[p].id, Rewritten(modules, p))
  }

  /** A module's unit unwraps to its id and its rewritten code. */
  lemma UnitRoundTrip(modules: Modules, p: Path)
    requires Serializable(modules) && p in modules.entries
    ensures UnwrapModule(Unit(modules, p)) == Some((modules.entries[p].id, Rewritten(modules, p)))
  {
    WrapRoundTrip(modules.entries[p].id, Rewritten(modules, p));
  }

  /**
   * The inner loop over one module's dependency map: each edge's first
   * require call is rewritten to address the dependency by its id.
   */
  method RewriteModule(modules: Modules, metadata: Module) returns (code: string)
    requires Rewritable(modules, metadata)
    ensures code == RewriteRequires(modules, metadata, |metadata.dependencyMap.keys|)
  {
    code := metadata.code;
    var k := 0;
    while k < |metadata.dependencyMap.keys|
      invariant 0 <= k <= |metadata.dependencyMap.keys|
      invariant code == RewriteRequires(modules, metadata, k)
    {
      var dependencyName := metadata.dependencyMap.keys[k];
      var dependencyPath := metadata.dependencyMap.entries[dependencyName];
      var dependency := modules.entries[dependencyPath];
      code := ReplaceFirst(code, dependencyName, RequireId(dependency.id));
      k := k + 1;
    }
  }

  /** The units of the first `k` modules, in traversal order. */
  function UnitsUpTo(modules: Modules, k: nat): (units: seq<string>)
    requires Serializable(modules) && k <= |modules.keys|
    ensures |units| == k
  {
    if k == 0 then [] else UnitsUpTo(modules, k - 1) + [Unit(modules, modules.keys[k - 1])]
  }

  /** Element `i` of the units is the unit of module `i`. */
  lemma {:induction false} UnitsUpToAt(modules: Modules, k: nat, i: nat)
    requires Serializable(modules) && i < k <= |modules.keys|
    ensures UnitsUpTo(modules, k)[i] == Unit(modules, modules.keys[i])
  {
    if i < k - 1 {
      UnitsUpToAt(modules, k - 1, i);
    }
  }

  /** `s` back to front. */
  function Reversed<T>(s: seq<T>): (r: seq<T>)
    ensures |r| == |s|
  {
    if s == [] then [] else Reversed(s[1..]) + [s[0]]
  }

  /** Element `j` of the reversal is element |s| - 1 - j of `s`. */
  lemma {:induction false} ReversedAt<T>(s: seq<T>, j: nat)
    requires j < |s|
    ensures Reversed(s)[j] == s[|s| - 1 - j]
  {
    if j < |s| - 1 {
      ReversedAt(s[1..], j);
    }
  }

  /**
   * Between a first and a last element, element `i` of `xs` sits at
   * position |xs| - i of its reversal.
   */
  lemma FramedReversedAt<T>(first: T, xs: seq<T>, last: T, i: nat)
    requires i < |xs|
    ensures var framed := [first] + Reversed(xs) + [last];
      && |framed| == |xs| + 2
      && framed[0] == first
      && framed[|xs| + 1] == last
      && framed[|xs| - i] == xs[i]
  {
    ReversedAt(xs, |xs| - 1 - i);
  }

  /**
   * The serializer loop: the preamble first, then one unit per module in
   * reverse traversal order (so module 0's unit is the last), then the
   * bootstrap call.
   */
  method Serialize(modules: Modules, preamble: string) returns (output: seq<string>)
    requires Serializable(modules)
    ensures output == [preamble] + Reversed(UnitsUpTo(modules, |modules.keys|)) + [Bootstrap]
  {
    var n := |modules.keys|;
    ghost var units := UnitsUpTo(modules, n);
    output := [];
    while |output| < n
      invariant |output| <= n
      invariant output == Reversed(units[n - |output|..])
      decreases n - |output|
    {
      var k := n - 1 - |output|;
      var path := modules.keys[k];
      var metadata := modules.entries[path];
      var code := RewriteModule(modules, metadata);
      UnitsUpToAt(modules, n, k);
      assert units[k..][1..] == units[k + 1..];
      output := output + [WrapModule(metadata.id, code)];
    }
    assert units[0..] == units;
    output := [preamble] + output + [Bootstrap];
  }
}
