// The append-only token ledger: balances, the balance view, its unique index,
// and idempotent appends.
module Ledger {
  import opened Ids

  datatype Scope = CommunityScope | UserScope

  // delta is NUMERIC(18, 4), counted here in units of 0.0001.
  datatype Entry = Entry(
    scope: Scope, community: Uuid, user: Option<Uuid>, delta: int, key: Option<string>, createdAt: nat)

  datatype Group = Group(scope: Scope, community: Uuid, user: Option<Uuid>)

  const NUMERIC_18_4: int := 1_000_000_000_000_000_000

  function GroupOf(e: Entry): Group
  {
    Group(e.scope, e.community, e.user)
  }

  // ck_scope_owner
  predicate ScopeOwner(scope: Scope, user: Option<Uuid>)
  {
    (scope == CommunityScope && user.None?) || (scope == UserScope && user.Some?)
  }

  // ---------------------------------------------------------------------
  // Balances
  // ---------------------------------------------------------------------

  function BalanceOf(ledger: seq<Entry>, g: Group): int
  {
    if |ledger| == 0 then 0
    else BalanceOf(ledger[..|ledger| - 1], g) +
         (if GroupOf(ledger[|ledger| - 1]) == g then ledger[|ledger| - 1].delta else 0)
  }

  function LastChange(ledger: seq<Entry>, g: Group): nat
  {
    if |ledger| == 0 then 0
    else
      var before, e := LastChange(ledger[..|ledger| - 1], g), ledger[|ledger| - 1];
      if GroupOf(e) == g && e.createdAt > before then e.createdAt else before
  }

  function Total(ledger: seq<Entry>): int
  {
    if |ledger| == 0 then 0 else Total(ledger[..|ledger| - 1]) + ledger[|ledger| - 1].delta
  }

  function Groups(ledger: seq<Entry>): set<Group>
  {
    set e | e in ledger :: GroupOf(e)
  }

  datatype Balance = Balance(amount: int, lastChangeAt: nat)

  // The materialized view: one row per group that has an entry.
  function View(ledger: seq<Entry>): map<Group, Balance>
  {
    map g | g in Groups(ledger) :: Balance(BalanceOf(ledger, g), LastChange(ledger, g))
  }

  // The view's amount for a group, 0 where it has no row.
  function Shown(view: map<Group, Balance>, g: Group): int
  {
    if g in view then view[g].amount else 0
  }

  lemma {:induction false} BalanceAdds(a: seq<Entry>, b: seq<Entry>, g: Group)
    ensures BalanceOf(a + b, g) == BalanceOf(a, g) + BalanceOf(b, g)
  {
    if |b| == 0 {
      assert a + b == a;
    } else {
      assert (a + b)[..|a + b| - 1] == a + b[..|b| - 1];
      BalanceAdds(a, b[..|b| - 1], g);
    }
  }

  lemma {:induction false} NoRowNoBalance(ledger: seq<Entry>, g: Group)
    requires g !in Groups(ledger)
    ensures BalanceOf(ledger, g) == 0
  {
    if |ledger| > 0 {
      var e := ledger[|ledger| - 1];
      assert GroupOf(e) in Groups(ledger);
      assert Groups(ledger[..|ledger| - 1]) <= Groups(ledger);
      NoRowNoBalance(ledger[..|ledger| - 1], g);
    }
  }

  lemma ShownIsBalance(ledger: seq<Entry>, g: Group)
    ensures Shown(View(ledger), g) == BalanceOf(ledger, g)
  {
    if g !in Groups(ledger) {
      NoRowNoBalance(ledger, g);
    }
  }

  // last_change_at is the greatest created_at in the group.
  lemma {:induction false} LastChangeIsMax(ledger: seq<Entry>, g: Group)
    ensures forall e :: e in ledger && GroupOf(e) == g ==> e.createdAt <= LastChange(ledger, g)
    ensures g in Groups(ledger) ==> exists e :: e in ledger && GroupOf(e) == g && e.createdAt == LastChange(ledger, g)
  {
    if |ledger| > 0 {
      var rest, e := ledger[..|ledger| - 1], ledger[|ledger| - 1];
      LastChangeIsMax(rest, g);
      assert ledger == rest + [e];
      assert forall d :: d in ledger <==> d in rest || d == e;
      if g in Groups(rest) {
        var d :| d in rest && GroupOf(d) == g && d.createdAt == LastChange(rest, g);
        assert d in ledger;
      } else {
        assert forall d :: d in rest ==> GroupOf(d) in Groups(rest);
        NoEntryNoChange(rest, g);
      }
    }
  }

  lemma {:induction false} NoEntryNoChange(ledger: seq<Entry>, g: Group)
    requires g !in Groups(ledger)
    ensures LastChange(ledger, g) == 0
  {
    if |ledger| > 0 {
      var e, rest := ledger[|ledger| - 1], ledger[..|ledger| - 1];
      assert GroupOf(e) in Groups(ledger);
      assert Groups(rest) <= Groups(ledger);
      NoEntryNoChange(rest, g);
    }
  }

  ghost predicate InGroup(e: Entry, g: Group)
  {
    e.scope == g.scope && e.community == g.community && e.user == g.user
  }

  // The view has a row for exactly the groups with an entry; the row shows the
  // group's sum and the time of its latest entry.
  lemma ViewIsExact(ledger: seq<Entry>, g: Group)
    ensures g in View(ledger) <==> exists e :: e in ledger && InGroup(e, g)
    ensures g in View(ledger) ==>
              && View(ledger)[g].amount == BalanceOf(ledger, g)
              && (forall e :: e in ledger && InGroup(e, g) ==> e.createdAt <= View(ledger)[g].lastChangeAt)
              && (exists e :: e in ledger && InGroup(e, g) && e.createdAt == View(ledger)[g].lastChangeAt)
  {
    assert forall e :: InGroup(e, g) <==> GroupOf(e) == g;
    LastChangeIsMax(ledger, g);
  }

  // The sum of one entry; BalanceAdds gives all others.
  lemma BalanceOfOne(e: Entry, g: Group)
    ensures BalanceOf([e], g) == if InGroup(e, g) then e.delta else 0
  {
    assert [e][..0] == [];
  }

  // Sums over a set of groups.
  ghost function SumOver(groups: set<Group>, f: Group -> int): int
  {
    if groups == {} then 0
    else
      var g :| g in groups;
      f(g) + SumOver(groups - {g}, f)
  }

  lemma {:induction false} SumTakesOut(groups: set<Group>, f: Group -> int, g: Group)
    requires g in groups
    ensures SumOver(groups, f) == f(g) + SumOver(groups - {g}, f)
  {
    var h :| h in groups && SumOver(groups, f) == f(h) + SumOver(groups - {h}, f);
    if h != g {
      SumTakesOut(groups - {h}, f, g);
      SumTakesOut(groups - {g}, f, h);
      assert groups - {h} - {g} == groups - {g} - {h};
    }
  }

  lemma {:induction false} SumCongruent(groups: set<Group>, f: Group -> int, g: Group -> int)
    requires forall x :: x in groups ==> f(x) == g(x)
    ensures SumOver(groups, f) == SumOver(groups, g)
  {
    if groups != {} {
      var x :| x in groups;
      SumTakesOut(groups, f, x);
      SumTakesOut(groups, g, x);
      SumCongruent(groups - {x}, f, g);
    }
  }

  // The balances of all groups add up to all deltas ever appended.
  lemma {:induction false} BalancesSumToTotal(ledger: seq<Entry>, groups: set<Group>)
    requires Groups(ledger) <= groups
    ensures SumOver(groups, g => BalanceOf(ledger, g)) == Total(ledger)
  {
    var after := g => BalanceOf(ledger, g);
    if |ledger| == 0 {
      var zero := (g: Group) => 0;
      SumOfZero(groups);
      SumCongruent(groups, after, zero);
    } else {
      var e, rest := ledger[|ledger| - 1], ledger[..|ledger| - 1];
      var before := g => BalanceOf(rest, g);
      assert Groups(rest) <= Groups(ledger);
      BalancesSumToTotal(rest, groups);
      SumCongruent(groups, before, g => BalanceOf(rest, g));
      assert GroupOf(e) in Groups(ledger);
      SumTakesOut(groups, after, GroupOf(e));
      SumTakesOut(groups, before, GroupOf(e));
      SumCongruent(groups - {GroupOf(e)}, after, before);
    }
    SumCongruent(groups, after, g => BalanceOf(ledger, g));
  }

  // The rows of the view add up to all deltas ever appended.
  lemma ViewSumsToTotal(ledger: seq<Entry>)
    ensures SumOver(View(ledger).Keys, g => Shown(View(ledger), g)) == Total(ledger)
  {
    var groups := View(ledger).Keys;
    assert groups == Groups(ledger);
    BalancesSumToTotal(ledger, groups);
    SumCongruent(groups, g => Shown(View(ledger), g), g => BalanceOf(ledger, g));
  }

  lemma {:induction false} SumOfZero(groups: set<Group>)
    ensures SumOver(groups, (g: Group) => 0) == 0
  {
    var zero := (g: Group) => 0;
    if groups != {} {
      var x :| x in groups;
      SumTakesOut(groups, zero, x);
      SumOfZero(groups - {x});
      SumCongruent(groups - {x}, zero, (g: Group) => 0);
    }
    SumCongruent(groups, zero, (g: Group) => 0);
  }

  // ---------------------------------------------------------------------
  // The unique index of the view
  // ---------------------------------------------------------------------

  // (scope, community_id, COALESCE(user_id, zero UUID))
  function IndexKey(g: Group): (Scope, Uuid, Uuid)
  {
    (g.scope, g.community, if g.user.Some? then g.user.value else ZERO_UUID)
  }

  // Could the unique index hold these groups?
  predicate IndexHolds(groups: set<Group>)
  {
    forall g, h :: g in groups && h in groups && IndexKey(g) == IndexKey(h) ==> g == h
  }

  lemma ScopeOwnerKeepsIndex(ledger: seq<Entry>)
    requires forall e :: e in ledger ==> ScopeOwner(e.scope, e.user)
    ensures IndexHolds(Groups(ledger))
  {
    forall g, h | g in Groups(ledger) && h in Groups(ledger) && IndexKey(g) == IndexKey(h)
      ensures g == h
    {
      var d :| d in ledger && GroupOf(d) == g;
      var e :| e in ledger && GroupOf(e) == h;
      assert ScopeOwner(d.scope, d.user) && ScopeOwner(e.scope, e.user);
    }
  }

  // Without ck_scope_owner the index breaks exactly when one scope of one
  // community has entries both without a user and with the zero UUID as user.
  lemma IndexBreaksOnZeroUser(ledger: seq<Entry>)
    ensures !IndexHolds(Groups(ledger)) <==>
            exists d, e :: d in ledger && e in ledger && d.scope == e.scope && d.community == e.community &&
                           d.user.None? && e.user == Some(0)
  {
    if !IndexHolds(Groups(ledger)) {
      var g, h :| g in Groups(ledger) && h in Groups(ledger) && IndexKey(g) == IndexKey(h) && g != h;
      var d :| d in ledger && GroupOf(d) == g;
      var e :| e in ledger && GroupOf(e) == h;
      assert d.user != e.user;
    }
    if d, e :| d in ledger && e in ledger && d.scope == e.scope && d.community == e.community &&
               d.user.None? && e.user == Some(0) {
      assert GroupOf(d) in Groups(ledger) && GroupOf(e) in Groups(ledger);
    }
  }

  // ---------------------------------------------------------------------
  // Idempotent appends
  // ---------------------------------------------------------------------

  function Keys(ledger: seq<Entry>): set<string>
  {
    set e | e in ledger && e.key.Some? :: e.key.value
  }

  // One INSERT. `ok` stands for all constraints but UNIQUE (idempotency_key),
  // under which NULLs are distinct; a violation leaves the ledger as it was.
  function Append(ledger: seq<Entry>, e: Entry, ok: Entry -> bool): seq<Entry>
  {
    if ok(e) && (e.key.Some? ==> e.key.value !in Keys(ledger)) then ledger + [e] else ledger
  }

  function AppendAll(ledger: seq<Entry>, es: seq<Entry>, ok: Entry -> bool): seq<Entry>
    decreases |es|
  {
    if |es| == 0 then ledger else AppendAll(Append(ledger, es[0], ok), es[1..], ok)
  }

  // The requests without later repeats of a key that is in `seen` or earlier.
  function DropRepeats(es: seq<Entry>, seen: set<string>): seq<Entry>
    decreases |es|
  {
    if |es| == 0 then []
    else
      match es[0].key
      case None => [es[0]] + DropRepeats(es[1..], seen)
      case Some(k) =>
        if k in seen then DropRepeats(es[1..], seen)
        else [es[0]] + DropRepeats(es[1..], seen + {k})
  }

  // Is the first request with key k, the one that is not dropped, acceptable?
  ghost predicate FirstOk(es: seq<Entry>, ok: Entry -> bool, k: string)
    decreases |es|
  {
    |es| == 0 || (if es[0].key == Some(k) then ok(es[0]) else FirstOk(es[1..], ok, k))
  }

  // A repeat of a key is acceptable although the key's first request was not
  // (and the key is not in the ledger yet).
  ghost predicate AcceptedRepeat(ledger: seq<Entry>, es: seq<Entry>, seen: set<string>, ok: Entry -> bool, e: Entry)
  {
    && e in es && e.key.Some? && e.key.value !in Keys(ledger) && ok(e)
    && (e.key.value in seen || !FirstOk(es, ok, e.key.value))
  }

  lemma KeysGrow(ledger: seq<Entry>, e: Entry, ok: Entry -> bool)
    ensures Keys(ledger) <= Keys(Append(ledger, e, ok))
    ensures ok(e) && e.key.Some? ==> e.key.value in Keys(Append(ledger, e, ok))
    ensures forall k :: k in Keys(Append(ledger, e, ok)) ==> k in Keys(ledger) || (e.key == Some(k) && ok(e))
  {
    if ok(e) && (e.key.Some? ==> e.key.value !in Keys(ledger)) {
      forall k | k in Keys(ledger) ensures k in Keys(ledger + [e]) {
        var d :| d in ledger && d.key == Some(k);
        assert d in ledger + [e];
      }
      assert e in ledger + [e];
    }
  }

  lemma {:induction false} AppendsKeepKeys(ledger: seq<Entry>, es: seq<Entry>, ok: Entry -> bool)
    ensures Keys(ledger) <= Keys(AppendAll(ledger, es, ok))
    decreases |es|
  {
    if |es| > 0 {
      KeysGrow(ledger, es[0], ok);
      AppendsKeepKeys(Append(ledger, es[0], ok), es[1..], ok);
    }
  }

  // A key that is already seen never gets in once repeats are dropped.
  lemma {:induction false} DroppedStayOut(
      ledger: seq<Entry>, es: seq<Entry>, seen: set<string>, ok: Entry -> bool, k: string)
    requires k in seen && k !in Keys(ledger)
    ensures k !in Keys(AppendAll(ledger, DropRepeats(es, seen), ok))
    decreases |es|
  {
    if |es| > 0 {
      var rest := es[1..];
      match es[0].key
      case None =>
        KeysGrow(ledger, es[0], ok);
        assert ([es[0]] + DropRepeats(rest, seen))[1..] == DropRepeats(rest, seen);
        DroppedStayOut(Append(ledger, es[0], ok), rest, seen, ok, k);
      case Some(l) =>
        if l in seen {
          DroppedStayOut(ledger, rest, seen, ok, k);
        } else {
          KeysGrow(ledger, es[0], ok);
          assert ([es[0]] + DropRepeats(rest, seen + {l}))[1..] == DropRepeats(rest, seen + {l});
          DroppedStayOut(Append(ledger, es[0], ok), rest, seen + {l}, ok, k);
        }
    }
  }

  // Dropping later repeats of a key changes nothing, exactly when no repeat is
  // acceptable whose key's first request was not.
  lemma {:induction false} DropRepeatsAgrees(ledger: seq<Entry>, es: seq<Entry>, seen: set<string>, ok: Entry -> bool)
    ensures AppendAll(ledger, DropRepeats(es, seen), ok) == AppendAll(ledger, es, ok) <==>
            forall e :: !AcceptedRepeat(ledger, es, seen, ok, e)
    decreases |es|
  {
    if |es| > 0 {
      var e, rest := es[0], es[1..];
      var next := Append(ledger, e, ok);
      KeysGrow(ledger, e, ok);
      if e.key.Some? && e.key.value in seen {
        DropRepeatsAgrees(ledger, rest, seen, ok);
        if next == ledger {
          RepeatsShift(ledger, es, seen, seen, ok);
        } else {
          DroppedStayOut(ledger, es, seen, ok, e.key.value);
          AppendsKeepKeys(next, rest, ok);
          assert AcceptedRepeat(ledger, es, seen, ok, e);
        }
      } else {
        var seen' := if e.key.Some? then seen + {e.key.value} else seen;
        assert DropRepeats(es, seen)[1..] == DropRepeats(rest, seen');
        DropRepeatsAgrees(next, rest, seen', ok);
        RepeatsShift(ledger, es, seen, seen', ok);
      }
    }
  }

  lemma RepeatsShift(ledger: seq<Entry>, es: seq<Entry>, seen: set<string>, seen': set<string>, ok: Entry -> bool)
    requires |es| > 0
    requires seen' == if es[0].key.Some? then seen + {es[0].key.value} else seen
    requires es[0].key.Some? && es[0].key.value in seen ==> Append(ledger, es[0], ok) == ledger
    ensures (forall e :: !AcceptedRepeat(ledger, es, seen, ok, e)) <==>
            (forall e :: !AcceptedRepeat(Append(ledger, es[0], ok), es[1..], seen', ok, e))
  {
    var next := Append(ledger, es[0], ok);
    KeysGrow(ledger, es[0], ok);
    forall e
      ensures AcceptedRepeat(ledger, es, seen, ok, e) <==> AcceptedRepeat(next, es[1..], seen', ok, e)
    {
      assert e in es <==> e == es[0] || e in es[1..];
    }
  }

  // Retries repeat a request as it was. Then the ledger, and with it every
  // balance, is that of the requests without their repeats.
  lemma RetriesChangeNothing(ledger: seq<Entry>, es: seq<Entry>, ok: Entry -> bool)
    requires forall d, e :: d in es && e in es && d.key.Some? && d.key == e.key ==> ok(d) == ok(e)
    ensures AppendAll(ledger, DropRepeats(es, {}), ok) == AppendAll(ledger, es, ok)
  {
    DropRepeatsAgrees(ledger, es, {}, ok);
    forall e | e in es && e.key.Some? && ok(e)
      ensures FirstOk(es, ok, e.key.value)
    {
      FirstOkFromAll(es, ok, e.key.value);
    }
  }

  lemma {:induction false} FirstOkFromAll(es: seq<Entry>, ok: Entry -> bool, k: string)
    requires forall e :: e in es && e.key == Some(k) ==> ok(e)
    ensures FirstOk(es, ok, k)
    decreases |es|
  {
    if |es| > 0 {
      FirstOkFromAll(es[1..], ok, k);
    }
  }

  // The acceptable entries without a key, in order.
  function Keyless(es: seq<Entry>, ok: Entry -> bool): seq<Entry>
  {
    if |es| == 0 then []
    else if es[0].key.None? && ok(es[0]) then [es[0]] + Keyless(es[1..], ok)
    else Keyless(es[1..], ok)
  }

  lemma {:induction false} KeylessConcat(a: seq<Entry>, b: seq<Entry>, ok: Entry -> bool)
    ensures Keyless(a + b, ok) == Keyless(a, ok) + Keyless(b, ok)
  {
    if |a| == 0 {
      assert a + b == b;
    } else {
      assert (a + b)[1..] == a[1..] + b;
      KeylessConcat(a[1..], b, ok);
    }
  }

  // Null keys are never merged: every acceptable request without a key is in
  // the ledger, as often as it was made.
  lemma {:induction false} NullKeysAreNeverMerged(ledger: seq<Entry>, es: seq<Entry>, ok: Entry -> bool)
    ensures Keyless(AppendAll(ledger, es, ok), ok) == Keyless(ledger, ok) + Keyless(es, ok)
    decreases |es|
  {
    hide Keyless, Keys;
    if |es| == 0 {
      assert Keyless(es, ok) == [] by { KeylessOfNone(es, ok); }
    } else {
      var e, rest := es[0], es[1..];
      var a, x, k := Keyless(ledger, ok), Keyless([e], ok), Keyless(rest, ok);
      calc {
        Keyless(AppendAll(ledger, es, ok), ok);
        Keyless(AppendAll(Append(ledger, e, ok), rest, ok), ok);
        { NullKeysAreNeverMerged(Append(ledger, e, ok), rest, ok); }
        Keyless(Append(ledger, e, ok), ok) + k;
        { KeylessOfOne(e, ok); KeylessConcat(ledger, [e], ok); }
        (a + x) + k;
        a + (x + k);
        { assert es == [e] + rest; KeylessConcat([e], rest, ok); }
        a + Keyless(es, ok);
      }
    }
  }

  lemma KeylessOfNone(es: seq<Entry>, ok: Entry -> bool)
    requires |es| == 0
    ensures Keyless(es, ok) == []
  {}

  lemma KeylessOfOne(e: Entry, ok: Entry -> bool)
    ensures Keyless([e], ok) == if e.key.None? && ok(e) then [e] else []
  {}
}
