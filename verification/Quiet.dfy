/** What is not executed: a set of keys none of which has read anything that moved, and what
    asking for one of them leaves as it was. */
module Quiet {
  import opened Scratch
  import opened MemoGraph

  /** Every key of `rest` is an input, or has a memo that has read only keys of `rest`, none of
      which really moved since the memo was verified. */
  ghost predicate AtRest(g: Graph, rest: set<Key>) {
    forall key {:trigger MemoAtRest(g, rest, key)} :: key in rest ==> key in g.inputs || MemoAtRest(g, rest, key)
  }

  ghost predicate MemoAtRest(g: Graph, rest: set<Key>, key: Key) {
    && Live(g, key) && !g.memos[key].untracked
    && forall d :: d in g.memos[key].dependencies ==> d in rest && !Moved(g, d, g.memos[key].verifiedAt)
  }

  ghost predicate Undisturbed(g: Graph, key: Key) {
    exists rest {:trigger AtRest(g, rest)} :: key in rest && AtRest(g, rest)
  }

  /** Memos are verified, perhaps, and nothing else is written or called. */
  ghost predicate OnlyVerified(o: Graph, g: Graph) {
    && g == o.(memos := g.memos) && g.memos.Keys == o.memos.Keys
    && forall key {:trigger Restamp(o.memos[key], g.memos[key])} :: key in o.memos ==> Restamp(o.memos[key], g.memos[key])
  }

  /** What asking for an undisturbed key does. */
  ghost predicate Still(o: Graph, g: Graph, key: Key) {
    Undisturbed(o, key) ==> OnlyVerified(o, g)
  }

  lemma AtRestStays(o: Graph, g: Graph, rest: set<Key>)
    requires AtRest(o, rest) && OnlyVerified(o, g)
    ensures AtRest(g, rest)
  {
    forall key | key in rest && key !in g.inputs ensures MemoAtRest(g, rest, key) {
      assert MemoAtRest(o, rest, key) && Restamp(o.memos[key], g.memos[key]);
      forall d | d in g.memos[key].dependencies ensures d in rest && !Moved(g, d, g.memos[key].verifiedAt) {
        LaterMovesLess(o, g, d, o.memos[key].verifiedAt, g.memos[key].verifiedAt);
      }
    }
  }

  lemma LaterMovesLess(o: Graph, g: Graph, key: Key, since: nat, later: nat)
    requires g.inputs == o.inputs && g.settings == o.settings && since <= later
    requires Moments(g.runs, key) == Moments(o.runs, key)
    ensures Moved(g, key, later) ==> Moved(o, key, since)
  {
  }

  /** What an undisturbed memo has read is undisturbed, and stays so while others are verified. */
  lemma UndisturbedRead(o: Graph, g: Graph, key: Key, dependency: Key)
    requires Undisturbed(o, key) && key !in o.inputs && OnlyVerified(o, g)
    ensures Live(g, key)
    ensures dependency in g.memos[key].dependencies ==>
              Undisturbed(g, dependency) && !Moved(g, dependency, o.memos[key].verifiedAt)
  {
    var rest :| key in rest && AtRest(o, rest);
    assert MemoAtRest(o, rest, key) && Restamp(o.memos[key], g.memos[key]);
    AtRestStays(o, g, rest);
    if dependency in g.memos[key].dependencies {
      LaterMovesLess(o, g, dependency, o.memos[key].verifiedAt, o.memos[key].verifiedAt);
      assert dependency in rest && AtRest(g, rest);
    }
  }

  lemma OnlyVerifiedTwice(o: Graph, m: Graph, g: Graph)
    requires OnlyVerified(o, m) && OnlyVerified(m, g)
    ensures OnlyVerified(o, g)
  {
    forall key | key in o.memos ensures Restamp(o.memos[key], g.memos[key]) {
      assert Restamp(o.memos[key], m.memos[key]) && Restamp(m.memos[key], g.memos[key]);
    }
  }
}
