/** The auth proxy's query parser: it walks a parsed query with a visitor that
    collects source ids into a set, and turns that set into the list of ids
    the proxy checks against the caller's tenants. */
module CfAuthProxy {
  import opened PromQL
  import opened SourceIds

  /** What visiting one selector does to the collected ids: its verdict is
      `SelectorIds(ms)`; on success its ids are added, on a missing source id
      nothing is added, and on a regular expression the ids of the equality
      matchers before the first scoping regular expression stay added. */
  ghost predicate SelectorEffect(ms: seq<Matcher>, before: set<string>, after: set<string>, err: Option<Error>) {
    && err == ErrorOf(SelectorIds(ms))
    && (SelectorIds(ms).Ok? ==> after == before + SelectorIds(ms).value)
    && (err == Some(MissingSourceId) ==> after == before)
    && (err == Some(RegexNotAllowed) ==>
          exists k | 0 <= k < |ms| ::
            Scopes(ms[k]) && ms[k].kind == MatchRegexp && !HasScopeRegexp(ms[..k]) && after == before + EqualIds(ms[..k]))
    && before <= after <= before + EqualIds(ms)
  }

  /** What walking a subtree with selectors `sels` does to the collected ids. */
  ghost predicate WalkEffect(sels: seq<seq<Matcher>>, before: set<string>, after: set<string>, err: Option<Error>) {
    && err == ErrorOf(Decide(sels))
    && (Decide(sels).Ok? ==> after == before + Decide(sels).value)
    && before <= after <= before + NamedIds(sels)
  }

  class SourceIdVisitor {
    /** The source ids collected so far (a map used as a set in the source). */
    var sourceIds: set<string>

    constructor ()
      ensures sourceIds == {}
    {
      sourceIds := {};
    }

    /** Visits one node of the walk; `None` is the visit that ends a subtree.
        `next` is false when the walk must not descend (the source returns a nil
        visitor). Only selectors are inspected; the path argument of the source
        is unused there and left out. */
    method Visit(node: Option<Node>) returns (next: bool, err: Option<Error>)
      modifies this
      ensures node.None? ==> !next && err.None? && sourceIds == old(sourceIds)
      ensures node.Some? && !node.value.IsSelector() ==> next && err.None? && sourceIds == old(sourceIds)
      ensures node.Some? && node.value.IsSelector() ==>
        next == err.None? && SelectorEffect(node.value.labelMatchers, old(sourceIds), sourceIds, err)
    {
      if node.None? {
        return false, None;
      }
      err := None;
      match node.value {
        case VectorSelector(_, _, labelMatchers) =>
          err := AddSourceIdsFromMatchers(labelMatchers);
        case MatrixSelector(_, _, _, labelMatchers) =>
          err := AddSourceIdsFromMatchers(labelMatchers);
        case _ =>
      }
      if err.Some? {
        return false, err;
      }
      return true, None;
    }

    /** Checks one selector's matchers and collects the ids they name. */
    method AddSourceIdsFromMatchers(labelMatchers: seq<Matcher>) returns (err: Option<Error>)
      modifies this
      ensures SelectorEffect(labelMatchers, old(sourceIds), sourceIds, err)
    {
      var containsValidSourceId := false;
      for i := 0 to |labelMatchers|
        invariant containsValidSourceId == HasScope(labelMatchers[..i])
        invariant !HasScopeRegexp(labelMatchers[..i])
        invariant sourceIds == old(sourceIds) + EqualIds(labelMatchers[..i])
      {
        var labelMatcher := labelMatchers[i];
        ScanOneMore(labelMatchers, i);
        if labelMatcher.name == SourceIdLabel && labelMatcher.value != "" {
          containsValidSourceId := true;
          err := AddSourceIdsFromLabelMatcher(this, labelMatcher);
          if err.Some? {
            return;
          }
        }
      }
      assert labelMatchers[..|labelMatchers|] == labelMatchers;
      if !containsValidSourceId {
        return Some(MissingSourceId);
      }
      return None;
    }
  }

  /** Records one source_id matcher in the visitor's set: an equality adds its
      value, a regular expression is an error, the negated kinds add nothing. */
  method AddSourceIdsFromLabelMatcher(visitor: SourceIdVisitor, labelMatcher: Matcher) returns (err: Option<Error>)
    modifies visitor
    ensures err == if labelMatcher.kind == MatchRegexp then Some(RegexNotAllowed) else None
    ensures visitor.sourceIds == old(visitor.sourceIds) + if labelMatcher.kind == MatchEqual then {labelMatcher.value} else {}
  {
    match labelMatcher.kind {
      case MatchRegexp =>
        return Some(RegexNotAllowed);
      case MatchEqual =>
        visitor.sourceIds := visitor.sourceIds + {labelMatcher.value};
      case _ =>
    }
    return None;
  }

  /** Pre-order walk: visit the node, then its children left to right, then
      the closing visit; the first error stops the walk and is returned. */
  method Walk(visitor: SourceIdVisitor, node: Node) returns (err: Option<Error>)
    modifies visitor
    decreases node
    ensures WalkEffect(Selectors(node), old(visitor.sourceIds), visitor.sourceIds, err)
  {
    var next;
    next, err := visitor.Visit(Some(node));
    if node.IsSelector() {
      SelectorWalked(node, old(visitor.sourceIds), visitor.sourceIds, err);
    }
    if !next || err.Some? {
      return;
    }
    ghost var visited := visitor.sourceIds;
    var children := Children(node);
    for i := 0 to |children|
      invariant Decide(SelectorsOfChildren(node, i)).Ok?
      invariant visitor.sourceIds == visited + Decide(SelectorsOfChildren(node, i)).value
      invariant !node.IsSelector() ==> visited == old(visitor.sourceIds)
    {
      ghost var before := visitor.sourceIds;
      err := Walk(visitor, children[i]);
      ChildWalked(node, i, visited, before, visitor.sourceIds, err);
      if err.Some? {
        return;
      }
    }
    if !node.IsSelector() {
      ChildrenWalked(node, visited, visitor.sourceIds);
    }
    next, err := visitor.Visit(None);
  }

  /** A selector has no children: visiting it is the whole walk. */
  lemma SelectorWalked(n: Node, before: set<string>, after: set<string>, err: Option<Error>)
    requires n.IsSelector()
    requires SelectorEffect(n.labelMatchers, before, after, err)
    ensures WalkEffect(Selectors(n), before, after, err)
  {
    DecideSingle(n.labelMatchers);
    NamedIdsSingle(n.labelMatchers);
  }

  /** An inner node whose children are all accepted is accepted. */
  lemma ChildrenWalked(n: Node, start: set<string>, after: set<string>)
    requires !n.IsSelector()
    requires Decide(SelectorsOfChildren(n, |Children(n)|)).Ok?
    requires after == start + Decide(SelectorsOfChildren(n, |Children(n)|)).value
    ensures WalkEffect(Selectors(n), start, after, None)
  {
    DecideMeaning(Selectors(n));
  }

  /** Walking the `i`-th child of an inner node, after the first `i` children
      were accepted, either accepts the first `i + 1` children or decides the
      walk of the whole node. */
  lemma ChildWalked(n: Node, i: nat, start: set<string>, before: set<string>, after: set<string>, err: Option<Error>)
    requires !n.IsSelector() && i < |Children(n)|
    requires Decide(SelectorsOfChildren(n, i)).Ok?
    requires before == start + Decide(SelectorsOfChildren(n, i)).value
    requires WalkEffect(Selectors(Children(n)[i]), before, after, err)
    ensures err.None? ==> Decide(SelectorsOfChildren(n, i + 1)).Ok?
    ensures err.None? ==> after == start + Decide(SelectorsOfChildren(n, i + 1)).value
    ensures err.Some? ==> WalkEffect(Selectors(n), start, after, err)
  {
    WalkedAfter(SelectorsOfChildren(n, i), Selectors(Children(n)[i]), start, before, after, err);
    if err.Some? {
      FailedPrefixDecides(n, i + 1, |Children(n)|);
      assert Selectors(n) == SelectorsOfChildren(n, |Children(n)|);
    }
  }

  /** Walking the selectors `next` after the accepted selectors `done`. */
  lemma WalkedAfter(done: seq<seq<Matcher>>, next: seq<seq<Matcher>>, start: set<string>, before: set<string>, after: set<string>, err: Option<Error>)
    requires Decide(done).Ok?
    requires before == start + Decide(done).value
    requires WalkEffect(next, before, after, err)
    ensures err.None? ==> Decide(done + next).Ok? && after == start + Decide(done + next).value
    ensures err.Some? ==> WalkEffect(done + next, start, after, err)
  {
    DecideAppend(done, next);
    NamedIdsAppend(done, next);
    DecideMeaning(done);
  }

  /** A parse result as the foreign parser delivers it. */
  datatype Parsed = Parsed(expr: Node) | ParseError(message: string)

  /** No element occurs twice. */
  predicate NoDuplicates(s: seq<string>) {
    forall i, j | 0 <= i < j < |s| :: s[i] != s[j]
  }

  class QueryParser {
    /** The source ids a query reads: an error and no ids if parsing fails or
        any selector is rejected; otherwise each accepted id once, in no
        particular order. The text the proxy reports for each error is
        `Message(err.value)`. */
    method ExtractSourceIds(query: Parsed) returns (sourceIds: seq<string>, err: Option<Error>)
      ensures query.ParseError? ==> sourceIds == [] && err == Some(ParseFailure(query.message))
      ensures query.Parsed? ==> err == ErrorOf(Extract(query.expr))
      ensures err.Some? ==> sourceIds == []
      ensures err.None? ==> NoDuplicates(sourceIds)
      ensures err.None? ==> forall id :: id in sourceIds <==> id in Extract(query.expr).value
    {
      if query.ParseError? {
        return [], Some(ParseFailure(query.message));
      }
      var visitor := new SourceIdVisitor();
      err := Walk(visitor, query.expr);
      if err.Some? {
        return [], err;
      }
      var collected := visitor.sourceIds;
      var remaining := collected;
      sourceIds := [];
      while remaining != {}
        invariant remaining <= collected
        invariant NoDuplicates(sourceIds)
        invariant forall id :: id in sourceIds <==> id in collected && id !in remaining
        decreases remaining
      {
        var sourceId :| sourceId in remaining;
        sourceIds := sourceIds + [sourceId];
        remaining := remaining - {sourceId};
      }
    }
  }
}
