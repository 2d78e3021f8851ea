/** The functional specification of source-id extraction: which queries the
    auth proxy lets through, and which tenant ids (source ids) it reports. */
module SourceIds {
  import opened PromQL

  /** The label that scopes a series to a tenant. */
  const SourceIdLabel: string := "source_id"

  datatype Error =
    | ParseFailure(message: string)  // returned unchanged from the parser
    | RegexNotAllowed                // a regular expression on source_id
    | MissingSourceId                // a selector that names no tenant

  /** The text of each error as the proxy reports it. */
  function Message(e: Error): string {
    match e
    case ParseFailure(m) => m
    case RegexNotAllowed => "regular expressions are unavailable on source ids"
    case MissingSourceId => "one or more terms lack a sourceId"
  }

  datatype Result<+T> = Ok(value: T) | Err(error: Error)

  function ErrorOf<T>(r: Result<T>): Option<Error> {
    if r.Err? then Some(r.error) else None
  }

  /** A matcher scopes its selector when it is on source_id and its value is
      non-empty, whatever its match type. */
  predicate Scopes(m: Matcher) {
    m.name == SourceIdLabel && m.value != ""
  }

  /** The tenant ids a selector names: the values of its scoping equality matchers. */
  function EqualIds(ms: seq<Matcher>): set<string> {
    set m | m in ms && Scopes(m) && m.kind == MatchEqual :: m.value
  }

  /** Some matcher on source_id has a non-empty value. */
  predicate HasScope(ms: seq<Matcher>) {
    exists m | m in ms :: Scopes(m)
  }

  /** Some matcher on source_id is a regular expression with a non-empty pattern. */
  predicate HasScopeRegexp(ms: seq<Matcher>) {
    exists m | m in ms :: Scopes(m) && m.kind == MatchRegexp
  }

  /** The verdict on one selector's matchers. */
  function SelectorIds(ms: seq<Matcher>): Result<set<string>> {
    if HasScopeRegexp(ms) then Err(RegexNotAllowed)
    else if !HasScope(ms) then Err(MissingSourceId)
    else Ok(EqualIds(ms))
  }

  /** How a left-to-right scan of a selector's matchers grows by one matcher. */
  lemma ScanOneMore(ms: seq<Matcher>, i: nat)
    requires i < |ms|
    ensures HasScope(ms[..i + 1]) == (HasScope(ms[..i]) || Scopes(ms[i]))
    ensures HasScopeRegexp(ms[..i + 1]) == (HasScopeRegexp(ms[..i]) || (Scopes(ms[i]) && ms[i].kind == MatchRegexp))
    ensures EqualIds(ms[..i + 1]) ==
      EqualIds(ms[..i]) + if Scopes(ms[i]) && ms[i].kind == MatchEqual then {ms[i].value} else {}
    ensures EqualIds(ms[..i]) <= EqualIds(ms)
    ensures HasScopeRegexp(ms[..i + 1]) ==> HasScopeRegexp(ms)
  {
    assert ms[..i + 1] == ms[..i] + [ms[i]];
    assert ms[i] in ms;
  }

  /** The matcher lists of every selector in the query, in pre-order. */
  function Selectors(n: Node): seq<seq<Matcher>>
    decreases n, 1
  {
    if n.IsSelector() then [n.labelMatchers] else SelectorsOfChildren(n, |Children(n)|)
  }

  /** The selectors under the first `k` children of `n`. */
  function SelectorsOfChildren(n: Node, k: nat): seq<seq<Matcher>>
    requires k <= |Children(n)|
    decreases n, 0, k
  {
    if k == 0 then [] else SelectorsOfChildren(n, k - 1) + Selectors(Children(n)[k - 1])
  }

  /** Every tenant id named by an equality matcher of any of the selectors. */
  function NamedIds(sels: seq<seq<Matcher>>): set<string> {
    set i, id | 0 <= i < |sels| && id in EqualIds(sels[i]) :: id
  }

  /** Sequential composition: the left part's error wins, otherwise the ids add up. */
  function Combine(x: Result<set<string>>, y: Result<set<string>>): Result<set<string>> {
    if x.Err? then x else if y.Err? then y else Ok(x.value + y.value)
  }

  /** The verdict on a list of selectors: the error of the first one that is
      rejected, or else the union of what each names. */
  function Decide(sels: seq<seq<Matcher>>): Result<set<string>> {
    if sels == [] then Ok({})
    else Combine(SelectorIds(sels[0]), Decide(sels[1..]))
  }

  /** What the proxy decides about a parsed query. */
  function Extract(n: Node): Result<set<string>> {
    Decide(Selectors(n))
  }

  lemma NamedIdsSingle(ms: seq<Matcher>)
    ensures NamedIds([ms]) == EqualIds(ms)
  {
    forall id | id in EqualIds(ms) ensures id in NamedIds([ms]) {
      assert [ms][0] == ms;
    }
  }

  lemma NamedIdsAppend(a: seq<seq<Matcher>>, b: seq<seq<Matcher>>)
    ensures NamedIds(a + b) == NamedIds(a) + NamedIds(b)
  {
    forall id | id in NamedIds(a + b) ensures id in NamedIds(a) + NamedIds(b) {
      var i :| 0 <= i < |a + b| && id in EqualIds((a + b)[i]);
      if i < |a| {
        assert (a + b)[i] == a[i];
      } else {
        assert (a + b)[i] == b[i - |a|];
      }
    }
    forall id | id in NamedIds(a) ensures id in NamedIds(a + b) {
      var i :| 0 <= i < |a| && id in EqualIds(a[i]);
      assert (a + b)[i] == a[i];
    }
    forall id | id in NamedIds(b) ensures id in NamedIds(a + b) {
      var i :| 0 <= i < |b| && id in EqualIds(b[i]);
      assert (a + b)[|a| + i] == b[i];
    }
  }

  /** A list of selectors is accepted exactly when each of them is, and then
      the ids are all those they name. */
  lemma {:induction false} DecideMeaning(sels: seq<seq<Matcher>>)
    ensures Decide(sels).Ok? <==> forall i | 0 <= i < |sels| :: SelectorIds(sels[i]).Ok?
    ensures Decide(sels).Ok? ==> Decide(sels).value == NamedIds(sels)
  {
    if sels != [] {
      DecideMeaning(sels[1..]);
      assert forall i | 1 <= i < |sels| :: sels[i] == sels[1..][i - 1];
      if Decide(sels).Ok? {
        NamedIdsAppend([sels[0]], sels[1..]);
        assert [sels[0]] + sels[1..] == sels;
        NamedIdsSingle(sels[0]);
      }
    }
  }

  /** A single selector is decided on its own. */
  lemma DecideSingle(ms: seq<Matcher>)
    ensures Decide([ms]) == SelectorIds(ms)
  {
    assert [ms][1..] == [];
    assert SelectorIds(ms).Ok? ==> SelectorIds(ms).value + {} == SelectorIds(ms).value;
  }

  /** Deciding a concatenation is deciding the parts one after the other. */
  lemma {:induction false} DecideAppend(a: seq<seq<Matcher>>, b: seq<seq<Matcher>>)
    ensures Decide(a + b) == Combine(Decide(a), Decide(b))
  {
    if a == [] {
      assert a + b == b;
      assert Decide(b).Ok? ==> {} + Decide(b).value == Decide(b).value;
    } else {
      assert (a + b)[0] == a[0];
      assert (a + b)[1..] == a[1..] + b;
      DecideAppend(a[1..], b);
      var first, x, y := SelectorIds(a[0]), Decide(a[1..]), Decide(b);
      if first.Ok? && x.Ok? && y.Ok? {
        assert first.value + (x.value + y.value) == (first.value + x.value) + y.value;
      }
    }
  }

  /** The first rejected selector in pre-order decides the error. */
  lemma {:induction false} DecideFirstFailure(sels: seq<seq<Matcher>>, i: nat)
    requires i < |sels|
    requires SelectorIds(sels[i]).Err?
    requires forall j | 0 <= j < i :: SelectorIds(sels[j]).Ok?
    ensures Decide(sels) == Err(SelectorIds(sels[i]).error)
  {
    if i > 0 {
      DecideFirstFailure(sels[1..], i - 1);
    }
  }

  /** A rejected prefix decides the whole list and keeps the ids it names. */
  lemma DecideFailedPrefix(a: seq<seq<Matcher>>, b: seq<seq<Matcher>>)
    requires Decide(a).Err?
    ensures Decide(a + b) == Decide(a)
    ensures NamedIds(a) <= NamedIds(a + b)
  {
    DecideAppend(a, b);
    NamedIdsAppend(a, b);
  }

  /** Once the first `i` children of a node are rejected, the later ones
      change neither the verdict nor lose the ids named so far. */
  lemma {:induction false} FailedPrefixDecides(n: Node, i: nat, k: nat)
    requires i <= k <= |Children(n)|
    requires Decide(SelectorsOfChildren(n, i)).Err?
    ensures Decide(SelectorsOfChildren(n, k)) == Decide(SelectorsOfChildren(n, i))
    ensures NamedIds(SelectorsOfChildren(n, i)) <= NamedIds(SelectorsOfChildren(n, k))
  {
    if k > i {
      FailedPrefixDecides(n, i, k - 1);
      DecideFailedPrefix(SelectorsOfChildren(n, k - 1), Selectors(Children(n)[k - 1]));
    }
  }

  /** A binary expression is decided left operand first. */
  lemma BinaryExprDecidesLeftFirst(op: string, lhs: Node, rhs: Node)
    ensures Extract(BinaryExpr(op, lhs, rhs)) == Combine(Extract(lhs), Extract(rhs))
  {
    var n := BinaryExpr(op, lhs, rhs);
    assert Children(n) == [lhs, rhs];
    assert SelectorsOfChildren(n, 0) == [];
    assert SelectorsOfChildren(n, 1) == [] + Selectors(lhs) == Selectors(lhs);
    assert Selectors(n) == SelectorsOfChildren(n, 2) == Selectors(lhs) + Selectors(rhs);
    DecideAppend(Selectors(lhs), Selectors(rhs));
  }

  /** A node with a single child, such as a call, a parenthesis or a unary
      expression, is decided by that child. */
  lemma OnlyChildDecides(n: Node)
    requires |Children(n)| == 1
    ensures Extract(n) == Extract(Children(n)[0])
  {
    assert SelectorsOfChildren(n, 1) == [] + Selectors(Children(n)[0]);
    assert [] + Selectors(Children(n)[0]) == Selectors(Children(n)[0]);
  }

  /** One rejected selector rejects the query, with the error of the first
      rejected selector in pre-order. */
  lemma FirstRejectedSelectorDecides(n: Node, i: nat)
    requires i < |Selectors(n)|
    requires SelectorIds(Selectors(n)[i]).Err?
    requires forall j | 0 <= j < i :: SelectorIds(Selectors(n)[j]).Ok?
    ensures Extract(n) == Err(SelectorIds(Selectors(n)[i]).error)
  {
    DecideFirstFailure(Selectors(n), i);
  }

  /** A regular expression on source_id with a non-empty pattern rejects the
      whole query; the error is RegexNotAllowed unless an earlier selector was
      already rejected. */
  lemma RegexOnSourceIdRejects(n: Node, i: nat, m: Matcher)
    requires i < |Selectors(n)|
    requires m in Selectors(n)[i] && m.name == SourceIdLabel && m.value != "" && m.kind == MatchRegexp
    ensures Extract(n).Err?
    ensures (forall j | 0 <= j < i :: SelectorIds(Selectors(n)[j]).Ok?) ==> Extract(n) == Err(RegexNotAllowed)
  {
    assert SelectorIds(Selectors(n)[i]) == Err(RegexNotAllowed);
    DecideMeaning(Selectors(n));
    if forall j | 0 <= j < i :: SelectorIds(Selectors(n)[j]).Ok? {
      DecideFirstFailure(Selectors(n), i);
    }
  }

  /** A selector whose source_id matchers all have the empty value (or which has
      none) rejects the whole query; the error is MissingSourceId unless an
      earlier selector was already rejected. */
  lemma UnscopedSelectorRejects(n: Node, i: nat)
    requires i < |Selectors(n)|
    requires forall m | m in Selectors(n)[i] :: m.name == SourceIdLabel ==> m.value == ""
    ensures Extract(n).Err?
    ensures (forall j | 0 <= j < i :: SelectorIds(Selectors(n)[j]).Ok?) ==> Extract(n) == Err(MissingSourceId)
  {
    assert SelectorIds(Selectors(n)[i]) == Err(MissingSourceId);
    DecideMeaning(Selectors(n));
    if forall j | 0 <= j < i :: SelectorIds(Selectors(n)[j]).Ok? {
      DecideFirstFailure(Selectors(n), i);
    }
  }

  /** The source_id matchers of a selector, in order. */
  function SourceIdMatchers(ms: seq<Matcher>): (r: seq<Matcher>)
    ensures forall m :: m in r <==> m in ms && m.name == SourceIdLabel
  {
    if ms == [] then []
    else if ms[0].name == SourceIdLabel then [ms[0]] + SourceIdMatchers(ms[1..])
    else SourceIdMatchers(ms[1..])
  }

  /** Matchers on other labels neither add ids nor scope a selector. */
  lemma OtherLabelsIgnored(ms: seq<Matcher>)
    ensures SelectorIds(ms) == SelectorIds(SourceIdMatchers(ms))
  {
    var f := SourceIdMatchers(ms);
    assert EqualIds(ms) == EqualIds(f);
    assert (forall m | m in ms :: !Scopes(m)) <==> (forall m | m in f :: !Scopes(m));
  }

  /** A selector scoped only by `!=` or `!~` matchers is accepted and names no
      tenant, so an accepted query may report no ids at all. */
  lemma NegatedMatchersScopeWithoutIds(ms: seq<Matcher>, m: Matcher)
    requires m in ms && Scopes(m)
    requires forall k | k in ms && Scopes(k) :: k.kind == MatchNotEqual || k.kind == MatchNotRegexp
    ensures SelectorIds(ms) == Ok({})
  {
    assert EqualIds(ms) == {};
  }

  /** Some selector in `sels` has an equality matcher `source_id="id"` with `id` non-empty. */
  predicate SomeSelectorNames(sels: seq<seq<Matcher>>, id: string) {
    exists i, m | 0 <= i < |sels| && m in sels[i] ::
      m.name == SourceIdLabel && m.kind == MatchEqual && m.value == id && id != ""
  }

  /** On success the ids are exactly the non-empty source_id equality values
      of all selectors in the query. */
  lemma AcceptedIdsAreNamedIds(n: Node, id: string)
    requires Extract(n).Ok?
    ensures id in Extract(n).value <==> SomeSelectorNames(Selectors(n), id)
  {
    var sels := Selectors(n);
    DecideMeaning(sels);
    assert id in Extract(n).value ==> SomeSelectorNames(sels, id) by {
      if id in Extract(n).value {
        var i :| 0 <= i < |sels| && id in EqualIds(sels[i]);
        var m :| m in sels[i] && Scopes(m) && m.kind == MatchEqual && m.value == id;
        assert m.name == SourceIdLabel && m.kind == MatchEqual && m.value == id && id != "";
      }
    }
    assert SomeSelectorNames(sels, id) ==> id in Extract(n).value by {
      if SomeSelectorNames(sels, id) {
        var i: int, m: Matcher :| 0 <= i < |sels| && m in sels[i] &&
          m.name == SourceIdLabel && m.kind == MatchEqual && m.value == id && id != "";
        assert id in EqualIds(sels[i]);
        assert id in NamedIds(sels);
      }
    }
  }

  /** `cpu{source_id!="a"}` is accepted with no ids. */
  lemma NotEqualQueryExample()
    ensures Extract(VectorSelector("cpu", 0, [Matcher(SourceIdLabel, MatchNotEqual, "a")])) == Ok({})
  {
    var ms := [Matcher(SourceIdLabel, MatchNotEqual, "a")];
    NegatedMatchersScopeWithoutIds(ms, ms[0]);
    DecideSingle(ms);
  }

  /** `cpu{source_id=""}` is rejected: the empty value does not scope. */
  lemma EmptySourceIdExample()
    ensures Extract(VectorSelector("cpu", 0, [Matcher(SourceIdLabel, MatchEqual, "")])) == Err(MissingSourceId)
  {
    var n := VectorSelector("cpu", 0, [Matcher(SourceIdLabel, MatchEqual, "")]);
    UnscopedSelectorRejects(n, 0);
  }

  /** A query without selectors, such as `1 + 1`, is accepted with no ids. */
  lemma NoSelectorsExample()
    ensures Extract(BinaryExpr("+", NumberLiteral(1.0), NumberLiteral(1.0))) == Ok({})
  {
    var one := NumberLiteral(1.0);
    assert Selectors(one) == SelectorsOfChildren(one, 0) == [];
    assert Extract(one) == Ok({});
    var none: set<string> := {};
    assert none + none == none;
    BinaryExprDecidesLeftFirst("+", one, one);
  }

  /** `a{source_id="app-1"} + b{source_id="app-1"}` names app-1 once. */
  lemma DuplicateIdsExample()
    ensures Extract(BinaryExpr("+",
              VectorSelector("a", 0, [Matcher(SourceIdLabel, MatchEqual, "app-1")]),
              VectorSelector("b", 0, [Matcher(SourceIdLabel, MatchEqual, "app-1")]))) == Ok({"app-1"})
  {
    var ms := [Matcher(SourceIdLabel, MatchEqual, "app-1")];
    assert EqualIds(ms) == {"app-1"};
    DecideSingle(ms);
    BinaryExprDecidesLeftFirst("+", VectorSelector("a", 0, ms), VectorSelector("b", 0, ms));
  }

  /** `a{source_id="app-1"} or b{source_id="app-2"}` names both tenants. */
  lemma TwoTenantsExample()
    ensures Extract(BinaryExpr("or",
              VectorSelector("a", 0, [Matcher(SourceIdLabel, MatchEqual, "app-1")]),
              VectorSelector("b", 0, [Matcher(SourceIdLabel, MatchEqual, "app-2")]))) == Ok({"app-1", "app-2"})
  {
    var ms1 := [Matcher(SourceIdLabel, MatchEqual, "app-1")];
    var ms2 := [Matcher(SourceIdLabel, MatchEqual, "app-2")];
    assert EqualIds(ms1) == {"app-1"};
    assert EqualIds(ms2) == {"app-2"};
    DecideSingle(ms1);
    DecideSingle(ms2);
    BinaryExprDecidesLeftFirst("or", VectorSelector("a", 0, ms1), VectorSelector("b", 0, ms2));
    assert {"app-1"} + {"app-2"} == {"app-1", "app-2"};
  }
}
