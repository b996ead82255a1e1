/** What a grant permits, and what a chain of delegations keeps. */
module Grants {
  import opened Options
  import opened Order
  import C = Clock
  import opened Values

  // ---- resources ------------------------------------------------------------------------------

  datatype SubjectKey = SubjectKey(kind: string, id: string)

  /** Subjects of a kind: one, those whose id starts with a prefix, or all. */
  datatype Resource = Resource(kind: string, id: Option<string>, prefix: Option<string>)

  predicate Covers(resource: Resource, key: SubjectKey) {
    && resource.kind == key.kind
    && if resource.id.Some? then resource.id.value == key.id
       else if resource.prefix.Some? then resource.prefix.value <= key.id
       else true
  }

  /** `resource` is at least as wide as `narrower`. */
  predicate CoversResource(resource: Resource, narrower: Resource) {
    && resource.kind == narrower.kind
    && if resource.id.Some? then narrower.id == resource.id
       else if resource.prefix.None? then true
       else if narrower.id.Some? then resource.prefix.value <= narrower.id.value
       else narrower.prefix.Some? && resource.prefix.value <= narrower.prefix.value
  }

  /** Whether `resource` covers every subject `narrower` does. */
  ghost predicate Wider(resource: Resource, narrower: Resource) {
    forall key :: Covers(narrower, key) ==> Covers(resource, key)
  }

  /** The test is exactly that, but for a prefix of no characters, which covers everything and
      is still held narrower than no narrowing at all. */
  lemma CoversResourceIsWider(resource: Resource, narrower: Resource)
    ensures CoversResource(resource, narrower)
            <==> Wider(resource, narrower)
                 && !(resource.id.None? && resource.prefix == Some("") && narrower.id.None? && narrower.prefix.None?)
  {
    if CoversResource(resource, narrower) {
      forall key | Covers(narrower, key)
        ensures Covers(resource, key)
      {
        PrefixOfPrefix(resource, narrower, key);
      }
    } else if Wider(resource, narrower) {
      var least := SubjectKey(narrower.kind,
                              if narrower.id.Some? then narrower.id.value
                              else if narrower.prefix.Some? then narrower.prefix.value else "");
      assert Covers(narrower, least);
      assert Covers(resource, least);
      if narrower.id.None? {
        var more := SubjectKey(narrower.kind, least.id + "x");
        assert Covers(narrower, more) && Covers(resource, more);
        assert more.id != least.id;
      }
    }
  }

  lemma PrefixOfPrefix(resource: Resource, narrower: Resource, key: SubjectKey)
    requires CoversResource(resource, narrower) && Covers(narrower, key)
    ensures Covers(resource, key)
  {
  }

  // ---- grants ---------------------------------------------------------------------------------

  datatype Binding = Binding(scope: string, epoch: int)

  datatype Grant = Grant(rights: seq<string>, resources: seq<Resource>, expiresAt: Option<string>,
                         binding: Option<Binding>, delegable: bool, maxDepth: int, constraints: seq<Value>, revoked: bool)

  datatype Denial = Revoked | Expired | AuthorityEpochStale | RightMissing | OutOfScope | DelegationExceeded

  /** A right, and the subject it is needed over, if it is over one. */
  datatype Need = Need(right: string, subject: Option<SubjectKey>)

  datatype Context = Context(now: string, epochs: seq<(string, int)>)

  /** The first epoch given for a scope; a scope that is not tracked never matches. */
  function EpochOf(epochs: seq<(string, int)>, scope: string): int {
    if epochs == [] then -1 else if epochs[0].0 == scope then epochs[0].1 else EpochOf(epochs[1..], scope)
  }

  /** A grant is expired from its instant on. */
  predicate Unexpired(grant: Grant, now: string) {
    grant.expiresAt.Some? ==> Precedes(now, grant.expiresAt.value)
  }

  predicate EpochCurrent(grant: Grant, context: Context) {
    grant.binding.Some? ==> EpochOf(context.epochs, grant.binding.value.scope) == grant.binding.value.epoch
  }

  function Usable(grant: Grant, context: Context): Option<Denial> {
    if grant.revoked then Some(Revoked)
    else if !Unexpired(grant, context.now) then Some(Expired)
    else if !EpochCurrent(grant, context) then Some(AuthorityEpochStale)
    else None
  }

  predicate CoversKey(resources: seq<Resource>, key: SubjectKey) {
    exists i :: 0 <= i < |resources| && Covers(resources[i], key)
  }

  predicate HoldsRights(grant: Grant, needs: seq<Need>) {
    forall i :: 0 <= i < |needs| ==> needs[i].right in grant.rights
  }

  predicate InScope(grant: Grant, needs: seq<Need>) {
    forall i :: 0 <= i < |needs| && needs[i].subject.Some? ==> CoversKey(grant.resources, needs[i].subject.value)
  }

  /** Every right is checked before any subject. */
  method Permits(grant: Grant, needs: seq<Need>) returns (denial: Option<Denial>)
    ensures denial.None? <==> HoldsRights(grant, needs) && InScope(grant, needs)
    ensures denial == Some(RightMissing) <==> !HoldsRights(grant, needs)
    ensures denial.Some? ==> denial.value.RightMissing? || denial.value.OutOfScope?
  {
    for i := 0 to |needs|
      invariant forall j :: 0 <= j < i ==> needs[j].right in grant.rights
    {
      if needs[i].right !in grant.rights {
        return Some(RightMissing);
      }
    }
    for i := 0 to |needs|
      invariant forall j :: 0 <= j < i && needs[j].subject.Some? ==> CoversKey(grant.resources, needs[j].subject.value)
    {
      if needs[i].subject.Some? && !CoversKey(grant.resources, needs[i].subject.value) {
        return Some(OutOfScope);
      }
    }
    denial := None;
  }

  // ---- delegation ------------------------------------------------------------------------------

  predicate ResourcesWithin(parent: Grant, child: Grant) {
    forall i :: 0 <= i < |child.resources|
      ==> exists j :: 0 <= j < |parent.resources| && CoversResource(parent.resources[j], child.resources[i])
  }

  predicate ExpiresWithin(parent: Grant, child: Grant) {
    parent.expiresAt.Some?
    ==> child.expiresAt.Some? && !Precedes(parent.expiresAt.value, child.expiresAt.value)
  }

  predicate MayDelegateTo(parent: Grant, child: Grant) {
    && parent.delegable && parent.maxDepth >= 1
    && (forall right :: right in child.rights ==> right in parent.rights)
    && ResourcesWithin(parent, child)
    && ExpiresWithin(parent, child)
    && child.maxDepth <= parent.maxDepth - 1
    && (forall constraint :: constraint in parent.constraints ==> constraint in child.constraints)
    && (parent.binding.Some? ==> child.binding == parent.binding)
  }

  /** A child never exceeds its parent. */
  lemma ChildIsWithin(parent: Grant, child: Grant, needs: seq<Need>, context: Context)
    requires MayDelegateTo(parent, child)
    ensures HoldsRights(child, needs) ==> HoldsRights(parent, needs)
    ensures InScope(child, needs) ==> InScope(parent, needs)
    ensures Unexpired(child, context.now) ==> Unexpired(parent, context.now)
    ensures EpochCurrent(child, context) ==> EpochCurrent(parent, context)
  {
    if InScope(child, needs) {
      forall i | 0 <= i < |needs| && needs[i].subject.Some?
        ensures CoversKey(parent.resources, needs[i].subject.value)
      {
        var key := needs[i].subject.value;
        var c :| 0 <= c < |child.resources| && Covers(child.resources[c], key);
        var p :| 0 <= p < |parent.resources| && CoversResource(parent.resources[p], child.resources[c]);
        PrefixOfPrefix(parent.resources[p], child.resources[c], key);
      }
    }
    if Unexpired(child, context.now) && parent.expiresAt.Some? {
      NotAfter(context.now, child.expiresAt.value, parent.expiresAt.value);
    }
  }

  /** A grant is usable exactly when it is not revoked, has not expired and its epoch is
      current; and of what is wrong with it the first is reported, in that order. */
  lemma UsableInOrder(grant: Grant, context: Context)
    ensures Usable(grant, context).None? <==> !grant.revoked && Unexpired(grant, context.now) && EpochCurrent(grant, context)
    ensures Usable(grant, context) == Some(Revoked) <==> grant.revoked
    ensures Usable(grant, context) == Some(Expired) <==> !grant.revoked && !Unexpired(grant, context.now)
    ensures Usable(grant, context) == Some(AuthorityEpochStale)
            <==> !grant.revoked && Unexpired(grant, context.now) && !EpochCurrent(grant, context)
  {
  }

  /** A bound grant is current exactly when the first epoch given for its scope is its own; for a
      scope that is not tracked, when its own is the number no epoch has. */
  lemma CurrentExactly(grant: Grant, context: Context)
    ensures EpochCurrent(grant, context) <==>
              grant.binding.Some? ==>
                var bound := grant.binding.value;
                || IsFirstEpoch(context.epochs, bound.scope, bound.epoch)
                || (bound.epoch == -1 && forall entry :: entry in context.epochs ==> entry.0 != bound.scope)
  {
    if grant.binding.Some? {
      EpochExactly(context.epochs, grant.binding.value.scope, grant.binding.value.epoch);
    }
  }

  ghost predicate IsFirstEpoch(epochs: seq<(string, int)>, scope: string, epoch: int) {
    exists i :: 0 <= i < |epochs| && epochs[i] == (scope, epoch) && forall j :: 0 <= j < i ==> epochs[j].0 != scope
  }

  lemma {:induction false} EpochExactly(epochs: seq<(string, int)>, scope: string, epoch: int)
    ensures EpochOf(epochs, scope) == epoch <==>
              IsFirstEpoch(epochs, scope, epoch) || (epoch == -1 && forall entry :: entry in epochs ==> entry.0 != scope)
  {
    if epochs != [] {
      var rest := epochs[1..];
      assert epochs == [epochs[0]] + rest;
      EpochExactly(rest, scope, epoch);
      if epochs[0].0 == scope {
        assert epochs[0] in epochs && (epochs[0].1 == epoch ==> epochs[0] == (scope, epoch));
      } else {
        FirstInTheRest(epochs, scope, epoch);
      }
    }
  }

  lemma FirstInTheRest(epochs: seq<(string, int)>, scope: string, epoch: int)
    requires epochs != [] && epochs[0].0 != scope
    ensures IsFirstEpoch(epochs, scope, epoch) <==> IsFirstEpoch(epochs[1..], scope, epoch)
  {
    if i :| 0 <= i < |epochs[1..]| && epochs[1..][i] == (scope, epoch) && forall j :: 0 <= j < i ==> epochs[1..][j].0 != scope {
      assert epochs[i + 1] == (scope, epoch);
      forall j | 0 <= j < i + 1 ensures epochs[j].0 != scope {
        assert j > 0 ==> epochs[1..][j - 1] == epochs[j];
      }
    }
    if i :| 0 <= i < |epochs| && epochs[i] == (scope, epoch) && forall j :: 0 <= j < i ==> epochs[j].0 != scope {
      assert epochs[1..][i - 1] == (scope, epoch);
      assert forall j :: 0 <= j < i - 1 ==> epochs[1..][j] == epochs[j + 1];
    }
  }

  /** A grant is expired at its instant already. */
  lemma ExpiredAtItsInstant(grant: Grant)
    requires grant.expiresAt.Some?
    ensures !Unexpired(grant, grant.expiresAt.value)
  {
    PrecedesIsStrict(grant.expiresAt.value, grant.expiresAt.value);
  }

  lemma NotAfter(now: string, sooner: string, later: string)
    requires Precedes(now, sooner) && !Precedes(later, sooner)
    ensures Precedes(now, later)
  {
    if sooner != later {
      PrecedesIsTotal(sooner, later);
      PrecedesIsTransitive(now, sooner, later);
    }
  }

  /** What a resource covers another does, but for no narrowing under an empty prefix. */
  ghost predicate Contains(resource: Resource, narrower: Resource) {
    && Wider(resource, narrower)
    && !(resource.id.None? && resource.prefix == Some("") && narrower.id.None? && narrower.prefix.None?)
  }

  /** A grant may be delegated exactly when it is delegable and has depth to give; the child has
      less depth, no right of its own and no subject of its own; outlives it at no instant; and
      has its constraints and, if it has one, its binding. */
  lemma MayDelegateExactly(parent: Grant, child: Grant)
    ensures MayDelegateTo(parent, child) <==>
              && parent.delegable && 0 < parent.maxDepth && child.maxDepth < parent.maxDepth
              && (forall right :: right in child.rights ==> right in parent.rights)
              && (forall narrow :: narrow in child.resources ==> exists wide :: wide in parent.resources && Contains(wide, narrow))
              && (forall now :: Unexpired(child, now) ==> Unexpired(parent, now))
              && (forall constraint :: constraint in parent.constraints ==> constraint in child.constraints)
              && (parent.binding.None? || child.binding == parent.binding)
  {
    WithinExactly(parent, child);
    ExpiryExactly(parent, child);
  }

  lemma WithinExactly(parent: Grant, child: Grant)
    ensures ResourcesWithin(parent, child) <==>
              forall narrow :: narrow in child.resources ==> exists wide :: wide in parent.resources && Contains(wide, narrow)
  {
    forall wide, narrow ensures CoversResource(wide, narrow) <==> Contains(wide, narrow) {
      CoversResourceIsWider(wide, narrow);
    }
    if ResourcesWithin(parent, child) {
      forall narrow | narrow in child.resources ensures exists wide :: wide in parent.resources && Contains(wide, narrow) {
        var i :| 0 <= i < |child.resources| && child.resources[i] == narrow;
        var j :| 0 <= j < |parent.resources| && CoversResource(parent.resources[j], child.resources[i]);
        assert parent.resources[j] in parent.resources;
      }
    }
    if forall narrow :: narrow in child.resources ==> exists wide :: wide in parent.resources && Contains(wide, narrow) {
      forall i | 0 <= i < |child.resources|
        ensures exists j :: 0 <= j < |parent.resources| && CoversResource(parent.resources[j], child.resources[i])
      {
        assert child.resources[i] in child.resources;
        var wide :| wide in parent.resources && Contains(wide, child.resources[i]);
        var j :| 0 <= j < |parent.resources| && parent.resources[j] == wide;
      }
    }
  }

  lemma ExpiryExactly(parent: Grant, child: Grant)
    ensures ExpiresWithin(parent, child) <==> forall now :: Unexpired(child, now) ==> Unexpired(parent, now)
  {
    if ExpiresWithin(parent, child) && parent.expiresAt.Some? {
      forall now | Unexpired(child, now) ensures Unexpired(parent, now) {
        NotAfter(now, child.expiresAt.value, parent.expiresAt.value);
      }
    }
    if parent.expiresAt.Some? {
      ExpiredAtItsInstant(parent);
      assert !ExpiresWithin(parent, child) ==> Unexpired(child, parent.expiresAt.value);
    }
  }

  /** Each grant was delegated from the one before it. */
  ghost predicate Chain(grants: seq<Grant>) {
    forall i :: 0 < i < |grants| ==> MayDelegateTo(grants[i - 1], grants[i])
  }

  /** Whatever the last grant of a chain permits now, every grant before it does; every
      constraint of every one of them is carried to the last; and the chain is no longer than
      its first grant allowed. */
  lemma {:induction false} ChainNeverWidens(grants: seq<Grant>, needs: seq<Need>, context: Context)
    requires grants != [] && Chain(grants)
    ensures var leaf := grants[|grants| - 1];
            forall i :: 0 <= i < |grants| ==>
              && (HoldsRights(leaf, needs) ==> HoldsRights(grants[i], needs))
              && (InScope(leaf, needs) ==> InScope(grants[i], needs))
              && (Unexpired(leaf, context.now) ==> Unexpired(grants[i], context.now))
              && (EpochCurrent(leaf, context) ==> EpochCurrent(grants[i], context))
              && (forall constraint :: constraint in grants[i].constraints ==> constraint in leaf.constraints)
    ensures |grants| > 1 ==> |grants| - 1 + grants[|grants| - 1].maxDepth <= grants[0].maxDepth
  {
    if |grants| > 1 {
      var above := grants[..|grants| - 1];
      assert above[|above| - 1] == grants[|grants| - 2] && above[0] == grants[0];
      ChainNeverWidens(above, needs, context);
      ChildIsWithin(grants[|grants| - 2], grants[|grants| - 1], needs, context);
      forall i | 0 <= i < |above|
        ensures grants[i] == above[i]
      {
      }
    }
  }

  /** While the last grant of a chain is usable, nothing but its own revocation can make one
      before it unusable. */
  lemma OnlyRevocationIsLeft(grants: seq<Grant>, context: Context, i: nat)
    requires Chain(grants) && i < |grants| && Usable(grants[|grants| - 1], context).None?
    ensures Usable(grants[i], context) == if grants[i].revoked then Some(Revoked) else None
  {
    ChainNeverWidens(grants, [], context);
    UsableInOrder(grants[|grants| - 1], context);
    UsableInOrder(grants[i], context);
  }

  /** A chain of `n` delegations needs a first grant of depth `n`. */
  lemma ChainIsBounded(grants: seq<Grant>)
    requires |grants| > 1 && Chain(grants)
    ensures |grants| - 1 <= grants[0].maxDepth
  {
    var above := grants[..|grants| - 1];
    ChainNeverWidens(above, [], Context("", []));
    assert above[|above| - 1] == grants[|grants| - 2] && above[0] == grants[0];
    assert MayDelegateTo(grants[|grants| - 2], grants[|grants| - 1]);
  }

  /** A delegable grant of depth `n` or more has a chain of `n` delegations below it. */
  lemma ChainOfEveryLength(grant: Grant, n: nat) returns (grants: seq<Grant>)
    requires grant.delegable && n <= grant.maxDepth
    ensures |grants| == n + 1 && grants[0] == grant && Chain(grants)
  {
    grants := seq(n + 1, i requires 0 <= i <= n => grant.(maxDepth := grant.maxDepth - i));
    forall i | 0 < i < |grants| ensures MayDelegateTo(grants[i - 1], grants[i]) {
      forall narrow | narrow in grant.resources ensures Contains(narrow, narrow) {
        CoversResourceIsWider(narrow, narrow);
      }
      MayDelegateExactly(grants[i - 1], grants[i]);
    }
  }

  // ---- time ------------------------------------------------------------------------------------

  /** Read from the provider's clock, a grant that has expired stays expired, whatever the
      clock's file holds later. */
  lemma ExpiredStaysExpired(grant: Grant, first: string, files: seq<Option<string>>, sooner: nat)
    requires sooner <= |files| && !Unexpired(grant, C.Reading(first, files[..sooner]))
    ensures !Unexpired(grant, C.Reading(first, files))
  {
    var before, now := C.Reading(first, files[..sooner]), C.Reading(first, files);
    C.ClockNeverRunsBack(first, files, sooner);
    if Precedes(now, grant.expiresAt.value) && before != now {
      PrecedesIsTotal(before, now);
      PrecedesIsTransitive(before, now, grant.expiresAt.value);
    }
  }
}
