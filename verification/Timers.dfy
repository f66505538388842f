/** The sorted timer list (lib/libtimer.c).  A callback may add, re-add or delete any timers; what the
    n-th callback of a run does is given by a script, so that a statement for every script covers all
    callbacks. */
module Timers {

  /** A timer on the list and its expiry. */
  datatype Entry = Entry(t: Timer, at: int)

  datatype Act = Add(t: Timer, expires: int) | Del(t: Timer)

  type Script = nat -> seq<Act>

  // ---------- The list as a value ----------

  predicate Sorted(l: seq<Entry>) {
    forall i, j | 0 <= i < j < |l| :: l[i].at <= l[j].at
  }

  predicate Distinct(l: seq<Entry>) {
    forall i, j | 0 <= i < j < |l| :: l[i].t != l[j].t
  }

  predicate On(l: seq<Entry>, t: Timer) {
    exists i | 0 <= i < |l| :: l[i].t == t
  }

  /** g_list_insert_sorted: before the first timer that does not expire earlier. */
  function Insert(l: seq<Entry>, e: Entry): seq<Entry> {
    if l == [] || e.at <= l[0].at then [e] + l else [l[0]] + Insert(l[1..], e)
  }

  /** g_list_remove: the first occurrence. */
  function Remove(l: seq<Entry>, t: Timer): seq<Entry> {
    if l == [] then [] else if l[0].t == t then l[1..] else [l[0]] + Remove(l[1..], t)
  }

  /** No timer is ever put at or before the last run. */
  function Clamp(expires: int, mark: int): int {
    if expires < mark + 1 then mark + 1 else expires
  }

  function Apply(l: seq<Entry>, mark: int, a: Act): seq<Entry> {
    match a
    case Add(t, expires) => Insert(Remove(l, t), Entry(t, Clamp(expires, mark)))
    case Del(t) => Remove(l, t)
  }

  function ApplyAll(l: seq<Entry>, mark: int, acts: seq<Act>): seq<Entry>
    decreases |acts|
  {
    if acts == [] then l else ApplyAll(Apply(l, mark, acts[0]), mark, acts[1..])
  }

  predicate Ok(l: seq<Entry>) {
    Sorted(l) && Distinct(l)
  }

  lemma {:induction false} InsertAt(l: seq<Entry>, e: Entry, k: nat)
    requires k <= |l| && (forall i | 0 <= i < k :: l[i].at < e.at) && (k < |l| ==> e.at <= l[k].at)
    ensures Insert(l, e) == l[..k] + [e] + l[k..]
  {
    if k > 0 {
      InsertAt(l[1..], e, k - 1);
      assert l[..k] + [e] + l[k..] == [l[0]] + (l[1..][..k - 1] + [e] + l[1..][k - 1..]);
    }
  }

  lemma {:induction false} RemoveAt(l: seq<Entry>, t: Timer, k: nat)
    requires k < |l| && (forall i | 0 <= i < k :: l[i].t != t) && l[k].t == t
    ensures Remove(l, t) == l[..k] + l[k + 1..]
  {
    if k > 0 {
      RemoveAt(l[1..], t, k - 1);
      assert l[..k] + l[k + 1..] == [l[0]] + (l[1..][..k - 1] + l[1..][k..]);
    }
  }

  lemma {:induction false} RemoveAbsent(l: seq<Entry>, t: Timer)
    requires !On(l, t)
    ensures Remove(l, t) == l
  {
    if l != [] {
      assert l[0].t != t && forall i | 0 <= i < |l[1..]| :: l[1..][i] == l[i + 1];
      RemoveAbsent(l[1..], t);
    }
  }

  /** Where a new timer goes. */
  lemma {:induction false} Place(l: seq<Entry>, e: Entry) returns (k: nat)
    requires Sorted(l)
    ensures k <= |l| && (forall i | 0 <= i < k :: l[i].at < e.at) && (forall i | k <= i < |l| :: e.at <= l[i].at)
  {
    k := 0;
    while k < |l| && l[k].at < e.at
      invariant k <= |l| && forall i | 0 <= i < k :: l[i].at < e.at
    {
      k := k + 1;
    }
  }

  lemma {:induction false} InsertMembers(l: seq<Entry>, e: Entry, x: Entry)
    ensures x in Insert(l, e) <==> x == e || x in l
  {
    if l != [] && e.at > l[0].at {
      InsertMembers(l[1..], e, x);
      assert x in l <==> x == l[0] || x in l[1..];
    }
  }

  lemma {:induction false} RemoveMembers(l: seq<Entry>, t: Timer, x: Entry)
    ensures x in Remove(l, t) ==> x in l
  {
    if l != [] && l[0].t != t {
      RemoveMembers(l[1..], t, x);
    }
  }

  lemma OnCons(l: seq<Entry>, t: Timer)
    requires l != []
    ensures On(l, t) <==> l[0].t == t || On(l[1..], t)
  {
    if On(l, t) && l[0].t != t {
      var i :| 0 <= i < |l| && l[i].t == t;
      assert l[1..][i - 1].t == t;
    } else if On(l[1..], t) {
      var i :| 0 <= i < |l[1..]| && l[1..][i].t == t;
      assert l[i + 1].t == t;
    }
  }

  lemma {:induction false} InsertOn(l: seq<Entry>, e: Entry, t: Timer)
    ensures On(Insert(l, e), t) <==> t == e.t || On(l, t)
  {
    OnCons(Insert(l, e), t);
    if l == [] || e.at <= l[0].at {
      assert Insert(l, e)[1..] == l;
    } else {
      assert Insert(l, e)[1..] == Insert(l[1..], e);
      InsertOn(l[1..], e, t);
      OnCons(l, t);
    }
  }

  lemma {:induction false} RemoveOn(l: seq<Entry>, t: Timer, u: Timer)
    requires Distinct(l)
    ensures On(Remove(l, t), u) <==> u != t && On(l, u)
  {
    if l != [] {
      OnCons(l, u);
      if l[0].t == t {
        assert forall i | 0 <= i < |l[1..]| :: l[1..][i] == l[i + 1];
      } else {
        assert Remove(l, t)[1..] == Remove(l[1..], t);
        OnCons(Remove(l, t), u);
        RemoveOn(l[1..], t, u);
      }
    }
  }

  lemma InsertSorted(l: seq<Entry>, e: Entry, k: nat)
    requires Sorted(l) && k <= |l|
    requires (forall i | 0 <= i < k :: l[i].at < e.at) && (forall i | k <= i < |l| :: e.at <= l[i].at)
    ensures Sorted(l[..k] + [e] + l[k..])
  {
  }

  lemma InsertDistinct(l: seq<Entry>, e: Entry, k: nat)
    requires Distinct(l) && !On(l, e.t) && k <= |l|
    ensures Distinct(l[..k] + [e] + l[k..])
  {
  }

  lemma InsertOk(l: seq<Entry>, e: Entry)
    requires Ok(l) && !On(l, e.t)
    ensures Ok(Insert(l, e)) && (forall t :: On(Insert(l, e), t) <==> t == e.t || On(l, t))
  {
    var k := Place(l, e);
    InsertAt(l, e, k);
    InsertSorted(l, e, k);
    InsertDistinct(l, e, k);
    forall t
      ensures On(Insert(l, e), t) <==> t == e.t || On(l, t)
    {
      InsertOn(l, e, t);
    }
  }

  lemma RemoveShape(l: seq<Entry>, k: nat)
    requires Ok(l) && k < |l|
    ensures Ok(l[..k] + l[k + 1..])
  {
  }

  lemma RemoveOk(l: seq<Entry>, t: Timer)
    requires Ok(l)
    ensures Ok(Remove(l, t)) && (forall u :: On(Remove(l, t), u) <==> u != t && On(l, u))
  {
    if On(l, t) {
      var k :| 0 <= k < |l| && l[k].t == t;
      RemoveAt(l, t, k);
      RemoveShape(l, k);
    } else {
      RemoveAbsent(l, t);
    }
    forall u
      ensures On(Remove(l, t), u) <==> u != t && On(l, u)
    {
      RemoveOn(l, t, u);
    }
  }

  /** Adding and deleting keep the list sorted and free of duplicates, and change who is on it by
      exactly the timer named. */
  lemma ApplyOk(l: seq<Entry>, mark: int, a: Act)
    requires Ok(l)
    ensures Ok(Apply(l, mark, a))
    ensures forall u :: On(Apply(l, mark, a), u) <==> if u == a.t then a.Add? else On(l, u)
  {
    RemoveOk(l, a.t);
    if a.Add? {
      InsertOk(Remove(l, a.t), Entry(a.t, Clamp(a.expires, mark)));
    }
  }

  lemma {:induction false} RemoveLeaves(l: seq<Entry>, t: Timer, x: Entry)
    requires Distinct(l)
    ensures x in Remove(l, t) <==> x in l && x.t != t
  {
    if l != [] {
      assert forall i | 0 <= i < |l[1..]| :: l[1..][i] == l[i + 1];
      if l[0].t != t {
        RemoveLeaves(l[1..], t, x);
        assert x in l <==> x == l[0] || x in l[1..];
      }
    }
  }

  /** What is on the list after an add or a delete, with which times: the others as they were, and an added timer
      at the time asked for, or one second after the last run if that is not later than the run. */
  lemma ApplyTimes(l: seq<Entry>, mark: int, a: Act, x: Entry)
    requires Ok(l)
    ensures x in Apply(l, mark, a) <==>
      || (x in l && x.t != a.t)
      || (a.Add? && x == Entry(a.t, if a.expires <= mark then mark + 1 else a.expires))
  {
    RemoveLeaves(l, a.t, x);
    if a.Add? {
      InsertMembers(Remove(l, a.t), Entry(a.t, Clamp(a.expires, mark)), x);
    }
  }

  // ---------- Due timers ----------

  function Due(l: seq<Entry>, now: int): seq<Entry> {
    if l == [] then [] else if l[0].at <= now then [l[0]] + Due(l[1..], now) else Due(l[1..], now)
  }

  function Later(l: seq<Entry>, now: int): seq<Entry> {
    if l == [] then [] else if l[0].at > now then [l[0]] + Later(l[1..], now) else Later(l[1..], now)
  }

  function Excluding(l: seq<Entry>, t: Timer): seq<Entry> {
    if l == [] then [] else if l[0].t == t then Excluding(l[1..], t) else [l[0]] + Excluding(l[1..], t)
  }

  lemma {:induction false} InsertDue(l: seq<Entry>, e: Entry, now: int)
    requires e.at > now
    ensures Due(Insert(l, e), now) == Due(l, now) && Later(Insert(l, e), now) == Insert(Later(l, now), e)
  {
    if l == [] || e.at <= l[0].at {
      assert ([e] + l)[1..] == l;
    } else {
      InsertDue(l[1..], e, now);
      assert Insert(l, e)[1..] == Insert(l[1..], e);
    }
  }

  lemma {:induction false} ExcludingAbsent(l: seq<Entry>, t: Timer)
    requires !On(l, t)
    ensures Excluding(l, t) == l
  {
    if l != [] {
      assert l[0].t != t && forall i | 0 <= i < |l[1..]| :: l[1..][i] == l[i + 1];
      ExcludingAbsent(l[1..], t);
    }
  }

  lemma {:induction false} DueOn(l: seq<Entry>, now: int, t: Timer)
    requires !On(l, t)
    ensures !On(Due(l, now), t) && !On(Later(l, now), t)
  {
    if l != [] {
      assert l[0].t != t && forall i | 0 <= i < |l[1..]| :: l[1..][i] == l[i + 1];
      DueOn(l[1..], now, t);
    }
  }

  lemma {:induction false} RemoveDue(l: seq<Entry>, t: Timer, now: int)
    requires Distinct(l)
    ensures Due(Remove(l, t), now) == Excluding(Due(l, now), t)
    ensures Later(Remove(l, t), now) == Remove(Later(l, now), t)
  {
    if l != [] {
      if l[0].t == t {
        assert !On(l[1..], t);
        DueOn(l[1..], now, t);
        ExcludingAbsent(Due(l[1..], now), t);
        RemoveAbsent(Later(l[1..], now), t);
      } else {
        RemoveDue(l[1..], t, now);
        assert Remove(l, t)[1..] == Remove(l[1..], t);
      }
    }
  }

  /** During a run an add or a delete strikes its timer off the due ones, and adds none. */
  lemma ApplyDue(l: seq<Entry>, now: int, a: Act)
    requires Distinct(l)
    ensures Due(Apply(l, now, a), now) == Excluding(Due(l, now), a.t)
    ensures Later(Apply(l, now, a), now) == Apply(Later(l, now), now, a)
  {
    RemoveDue(l, a.t, now);
    if a.Add? {
      InsertDue(Remove(l, a.t), Entry(a.t, Clamp(a.expires, now)), now);
    }
  }

  function Strike(l: seq<Entry>, acts: seq<Act>): seq<Entry>
    decreases |acts|
  {
    if acts == [] then l else Strike(Excluding(l, acts[0].t), acts[1..])
  }

  lemma {:induction false} ApplyAllDue(l: seq<Entry>, now: int, acts: seq<Act>)
    requires Ok(l)
    ensures Ok(ApplyAll(l, now, acts))
    ensures Due(ApplyAll(l, now, acts), now) == Strike(Due(l, now), acts)
    ensures Later(ApplyAll(l, now, acts), now) == ApplyAll(Later(l, now), now, acts)
    decreases |acts|
  {
    if acts != [] {
      ApplyOk(l, now, acts[0]);
      ApplyDue(l, now, acts[0]);
      ApplyAllDue(Apply(l, now, acts[0]), now, acts[1..]);
    }
  }

  lemma {:induction false} ExcludingShorter(l: seq<Entry>, t: Timer)
    ensures |Excluding(l, t)| <= |l|
  {
    if l != [] {
      ExcludingShorter(l[1..], t);
    }
  }

  lemma {:induction false} StrikeShorter(l: seq<Entry>, acts: seq<Act>)
    ensures |Strike(l, acts)| <= |l|
    decreases |acts|
  {
    if acts != [] {
      ExcludingShorter(l, acts[0].t);
      StrikeShorter(Excluding(l, acts[0].t), acts[1..]);
    }
  }

  /** The due timers of a sorted list come first. */
  lemma {:induction false} DueFirst(l: seq<Entry>, now: int)
    requires Sorted(l)
    ensures l == Due(l, now) + Later(l, now)
    ensures (forall e | e in Later(l, now) :: e.at > now) && (forall e | e in Due(l, now) :: e.at <= now)
  {
    if l != [] {
      DueFirst(l[1..], now);
      if l[0].at > now {
        NoneDue(l, now);
      }
    }
  }

  lemma {:induction false} NoneDue(l: seq<Entry>, now: int)
    requires forall i | 0 <= i < |l| :: l[i].at > now
    ensures Due(l, now) == [] && Later(l, now) == l
  {
    if l != [] {
      NoneDue(l[1..], now);
    }
  }

  // ---------- A run ----------

  datatype Outcome = Outcome(list: seq<Entry>, log: seq<Entry>)

  /** The run loop.  It ends whatever the callbacks do: the timer it fires leaves the due ones and,
      since times are clamped past the run's mark, none joins them. */
  function RunFrom(l: seq<Entry>, now: int, script: Script, n: nat): (o: Outcome)
    requires Ok(l)
    ensures Ok(o.list)
    decreases |Due(l, now)|
  {
    if l == [] || l[0].at > now then Outcome(l, []) else
      ApplyAllDue(l[1..], now, script(n));
      StrikeShorter(Due(l[1..], now), script(n));
      var rest := RunFrom(ApplyAll(l[1..], now, script(n)), now, script, n + 1);
      Outcome(rest.list, [l[0]] + rest.log)
  }

  predicate Touches(acts: seq<Act>, t: Timer) {
    exists k | 0 <= k < |acts| :: acts[k].t == t
  }

  predicate TouchedBefore(script: Script, n: nat, t: Timer) {
    exists j: nat | j < n :: Touches(script(j), t)
  }

  /** The simple form: of the timers due when the run starts, in order, each fires unless a callback
      fired before it added or deleted it. */
  function Fires(due: seq<Entry>, script: Script): seq<Entry> {
    if due == [] then [] else
      var m := |due| - 1;
      var log := Fires(due[..m], script);
      if TouchedBefore(script, |log|, due[m].t) then log else log + [due[m]]
  }

  /** What callbacks 0..n-1 leave of a list of due timers. */
  function Untouched(l: seq<Entry>, script: Script, n: nat): seq<Entry> {
    if n == 0 then l else Strike(Untouched(l, script, n - 1), script(n - 1))
  }

  lemma {:induction false} StrikeCons(e: Entry, l: seq<Entry>, acts: seq<Act>)
    ensures Strike([e] + l, acts) == if Touches(acts, e.t) then Strike(l, acts) else [e] + Strike(l, acts)
    decreases |acts|
  {
    if acts != [] {
      assert ([e] + l)[1..] == l;
      assert Touches(acts, e.t) <==> acts[0].t == e.t || Touches(acts[1..], e.t) by {
        if Touches(acts, e.t) {
          var k :| 0 <= k < |acts| && acts[k].t == e.t;
          assert k > 0 ==> acts[1..][k - 1].t == e.t;
        }
      }
      if acts[0].t != e.t {
        StrikeCons(e, Excluding(l, acts[0].t), acts[1..]);
      }
    }
  }

  lemma {:induction false} UntouchedCons(e: Entry, l: seq<Entry>, script: Script, n: nat)
    ensures Untouched([e] + l, script, n) ==
      if TouchedBefore(script, n, e.t) then Untouched(l, script, n) else [e] + Untouched(l, script, n)
  {
    if n > 0 {
      UntouchedCons(e, l, script, n - 1);
      StrikeCons(e, Untouched(l, script, n - 1), script(n - 1));
      assert TouchedBefore(script, n, e.t) <==> TouchedBefore(script, n - 1, e.t) || Touches(script(n - 1), e.t);
    }
  }

  lemma {:induction false} UntouchedNone(script: Script, n: nat)
    ensures Untouched([], script, n) == []
  {
    if n > 0 {
      UntouchedNone(script, n - 1);
      StrikeShorter([], script(n - 1));
    }
  }

  lemma NothingDue(l: seq<Entry>, now: int, script: Script, n: nat)
    requires Ok(l) && Due(l, now) == []
    ensures RunFrom(l, now, script, n) == Outcome(l, [])
  {
  }

  lemma NothingLeft(l: seq<Entry>, now: int, script: Script, n: nat)
    requires Ok(l) && (l == [] || l[0].at > now)
    ensures RunFrom(l, now, script, n) == Outcome(l, [])
  {
  }

  /** One turn of the loop. */
  lemma OneDue(l: seq<Entry>, now: int, script: Script, n: nat, e: Entry, rest: seq<Entry>) returns (l': seq<Entry>)
    requires Ok(l) && Due(l, now) == [e] + rest
    ensures Ok(l') && Due(l', now) == Strike(rest, script(n))
    ensures Later(l', now) == ApplyAll(Later(l, now), now, script(n))
    ensures RunFrom(l, now, script, n) ==
      Outcome(RunFrom(l', now, script, n + 1).list, [e] + RunFrom(l', now, script, n + 1).log)
  {
    DueFirst(l, now);
    assert l[0] == Due(l, now)[0] == e && e in Due(l, now);
    assert Due(l[1..], now) == Due(l, now)[1..] == rest;
    l' := ApplyAll(l[1..], now, script(n));
    ApplyAllDue(l[1..], now, script(n));
  }

  lemma FiresNext(due: seq<Entry>, script: Script, i: nat)
    requires i < |due|
    ensures var log := Fires(due[..i], script);
      Fires(due[..i + 1], script) == if TouchedBefore(script, |log|, due[i].t) then log else log + [due[i]]
  {
    assert due[..i + 1][..i] == due[..i];
    hide TouchedBefore;
  }

  lemma UntouchedNext(due: seq<Entry>, script: Script, i: nat, n: nat)
    requires i < |due|
    ensures Untouched(due[i..], script, n) ==
      if TouchedBefore(script, n, due[i].t) then Untouched(due[i + 1..], script, n)
      else [due[i]] + Untouched(due[i + 1..], script, n)
  {
    assert due[i..] == [due[i]] + due[i + 1..];
    UntouchedCons(due[i], due[i + 1..], script, n);
    hide Untouched, TouchedBefore;
  }

  /** The loop stands before the i-th of the timers due at the start. */
  ghost predicate Partway(l: seq<Entry>, now: int, script: Script, due: seq<Entry>, i: nat, n: nat)
    requires i <= |due|
  {
    Ok(l) && n == |Fires(due[..i], script)| && Due(l, now) == Untouched(due[i..], script, n)
  }

  /** What is left of the run, from there. */
  lemma {:induction false} RunFiresFrom(l: seq<Entry>, now: int, script: Script, due: seq<Entry>, i: nat, n: nat)
    requires i <= |due| && Partway(l, now, script, due, i, n)
    ensures Fires(due[..i], script) + RunFrom(l, now, script, n).log == Fires(due, script)
    decreases |due| - i
  {
    hide Ok, Due, RunFrom, Fires, Untouched, TouchedBefore;
    var log := Fires(due[..i], script);
    if i == |due| {
      assert due[i..] == [] && due[..i] == due;
      UntouchedNone(script, n);
      NothingDue(l, now, script, n);
    } else {
      var e := due[i];
      FiresNext(due, script, i);
      UntouchedNext(due, script, i, n);
      if TouchedBefore(script, n, e.t) {
        RunFiresFrom(l, now, script, due, i + 1, n);
      } else {
        var l' := OneDue(l, now, script, n, e, Untouched(due[i + 1..], script, n));
        UntouchedStep(due[i + 1..], script, n);
        RunFiresFrom(l', now, script, due, i + 1, n + 1);
        Assoc(log, e, RunFrom(l', now, script, n + 1).log);
      }
    }
  }

  lemma UntouchedStep(l: seq<Entry>, script: Script, n: nat)
    ensures Untouched(l, script, n + 1) == Strike(Untouched(l, script, n), script(n))
  {
  }

  lemma Assoc(a: seq<Entry>, e: Entry, b: seq<Entry>)
    ensures a + [e] + b == a + ([e] + b)
  {
  }

  /** What a run fires, for all callbacks: of the timers due at its start, in list order, each one that
      no earlier callback of the run touched. */
  lemma RunFires(l: seq<Entry>, now: int, script: Script)
    requires Ok(l)
    ensures RunFrom(l, now, script, 0).log == Fires(Due(l, now), script)
  {
    var due := Due(l, now);
    assert due[0..] == due && due[..0] == [];
    RunFiresFrom(l, now, script, due, 0, 0);
    assert [] + RunFrom(l, now, script, 0).log == RunFrom(l, now, script, 0).log;
  }

  /** Timers fire in order of expiry, each at most once, and only timers that were due at the start. */
  lemma {:induction false} FiresInOrder(due: seq<Entry>, script: Script)
    requires Ok(due)
    ensures Ok(Fires(due, script)) && forall k | 0 <= k < |Fires(due, script)| :: Fires(due, script)[k] in due
  {
    hide TouchedBefore;
    if due != [] {
      FiresInOrder(due[..|due| - 1], script);
    }
  }

  /** Firing keeps the order of the due timers. */
  lemma {:induction false} FiresKeepOrder(due: seq<Entry>, script: Script, i: nat, j: nat, p: nat, q: nat)
    requires Ok(due) && i < j < |due|
    requires p < |Fires(due, script)| && q < |Fires(due, script)|
    requires Fires(due, script)[p] == due[i] && Fires(due, script)[q] == due[j]
    ensures p < q
  {
    var m := |due| - 1;
    var log := Fires(due[..m], script);
    FiresInOrder(due[..m], script);
    assert forall k | 0 <= k < |log| :: log[k] != due[m];
    if j < m {
      FiresKeepOrder(due[..m], script, i, j, p, q);
    }
  }

  /** The list after `t` and then `u` were set for the same second. */
  function SetBoth(l: seq<Entry>, mark: int, t: Timer, u: Timer, at: int): seq<Entry> {
    Apply(Apply(l, mark, Add(t, at)), mark, Add(u, at))
  }

  lemma SetBothOk(l: seq<Entry>, mark: int, t: Timer, u: Timer, at: int)
    requires Ok(l)
    ensures Ok(SetBoth(l, mark, t, u, at))
  {
    hide Ok, Apply;
    ApplyOk(l, mark, Add(t, at));
    ApplyOk(Apply(l, mark, Add(t, at)), mark, Add(u, at));
  }

  lemma AddedIn(l: seq<Entry>, mark: int, t: Timer, u: Timer, at: int)
    requires Ok(l) && t != u && at > mark
    ensures var l1 := Apply(l, mark, Add(t, at)); Ok(l1) && Entry(t, at) in Remove(l1, u) && Ok(Remove(l1, u))
  {
    var l1 := Apply(l, mark, Add(t, at));
    ApplyOk(l, mark, Add(t, at));
    InsertMembers(Remove(l, t), Entry(t, at), Entry(t, at));
    hide Ok, Insert, Remove;
    RemoveOk(l1, u);
    KeepsOthers(l1, u, Entry(t, at));
  }

  /** A timer goes before those of the same second. */
  lemma InsertBefore(l: seq<Entry>, e: Entry, x: Entry) returns (i: nat, j: nat)
    requires Sorted(l) && x in l && x.at == e.at
    ensures i < j < |Insert(l, e)| && Insert(l, e)[i] == e && Insert(l, e)[j] == x
  {
    i := Place(l, e);
    InsertAt(l, e, i);
    var k :| 0 <= k < |l| && l[k] == x;
    j := k + 1;
  }

  /** Of two timers set for the same second, the one set later stands first. */
  lemma LaterFirst(l: seq<Entry>, mark: int, t: Timer, u: Timer, at: int) returns (i: nat, j: nat)
    requires Ok(l) && t != u && at > mark
    ensures var l' := SetBoth(l, mark, t, u, at);
      i < j < |l'| && l'[i] == Entry(u, at) && l'[j] == Entry(t, at)
  {
    AddedIn(l, mark, t, u, at);
    hide Sorted, Distinct, Insert, Remove;
    i, j := InsertBefore(Remove(Apply(l, mark, Add(t, at)), u), Entry(u, at), Entry(t, at));
  }

  lemma {:induction false} KeepsOthers(l: seq<Entry>, t: Timer, x: Entry)
    requires x in l && x.t != t
    ensures x in Remove(l, t)
  {
    if l[0].t != t && x != l[0] {
      KeepsOthers(l[1..], t, x);
    }
  }

  lemma {:induction false} DueAt(l: seq<Entry>, now: int, i: nat)
    requires Sorted(l) && i < |l| && l[i].at <= now
    ensures i < |Due(l, now)| && Due(l, now)[i] == l[i]
  {
    if i > 0 {
      DueAt(l[1..], now, i - 1);
    }
  }

  lemma DueOk(l: seq<Entry>, now: int)
    requires Ok(l)
    ensures Ok(Due(l, now))
  {
    DueFirst(l, now);
    assert forall k | 0 <= k < |Due(l, now)| :: Due(l, now)[k] == l[k];
    hide Due;
  }

  /** So of two such timers that fire in the same run, the one set later fires first. */
  lemma LaterFiresFirst(l: seq<Entry>, mark: int, t: Timer, u: Timer, at: int, now: int, script: Script, p: nat, q: nat)
    requires Ok(l) && t != u && mark < at <= now
    requires var log := Fires(Due(SetBoth(l, mark, t, u, at), now), script);
      p < |log| && q < |log| && log[p] == Entry(u, at) && log[q] == Entry(t, at)
    ensures Ok(SetBoth(l, mark, t, u, at))
    ensures RunFrom(SetBoth(l, mark, t, u, at), now, script, 0).log ==
      Fires(Due(SetBoth(l, mark, t, u, at), now), script)
    ensures p < q
  {
    var l' := SetBoth(l, mark, t, u, at);
    SetBothOk(l, mark, t, u, at);
    hide SetBoth, Due, Fires, RunFrom, Sorted, Distinct;
    var i, j := LaterFirst(l, mark, t, u, at);
    RunFires(l', now, script);
    DueOk(l', now);
    DueAt(l', now, i);
    DueAt(l', now, j);
    FiresKeepOrder(Due(l', now), script, i, j, p, q);
  }

  /** Everything callbacks n, n+1, .., n+k-1 do, in order. */
  function Acts(script: Script, n: nat, k: nat): seq<Act>
    decreases k
  {
    if k == 0 then [] else script(n) + Acts(script, n + 1, k - 1)
  }

  lemma {:induction false} ApplyAllJoin(l: seq<Entry>, mark: int, a: seq<Act>, b: seq<Act>)
    ensures ApplyAll(l, mark, a + b) == ApplyAll(ApplyAll(l, mark, a), mark, b)
    decreases |a|
  {
    if a == [] {
      assert a + b == b;
    } else {
      assert (a + b)[1..] == a[1..] + b;
      ApplyAllJoin(Apply(l, mark, a[0]), mark, a[1..], b);
    }
  }

  /** What a run leaves, for all callbacks: the timers not yet due at its start, with all that the
      callbacks did applied to them in order.  All of it lies after `now`. */
  lemma {:induction false} RunLeaves(l: seq<Entry>, now: int, script: Script, n: nat)
    requires Ok(l)
    ensures RunFrom(l, now, script, n).list ==
      ApplyAll(Later(l, now), now, Acts(script, n, |RunFrom(l, now, script, n).log|))
    ensures forall e | e in RunFrom(l, now, script, n).list :: e.at > now
    decreases |Due(l, now)|
  {
    DueFirst(l, now);
    hide RunFrom, Due, Later, Ok, Apply;
    var due := Due(l, now);
    if due == [] {
      NothingDue(l, now, script, n);
      assert [] + Later(l, now) == Later(l, now);
    } else {
      assert due == [due[0]] + due[1..];
      var l' := OneDue(l, now, script, n, due[0], due[1..]);
      StrikeShorter(due[1..], script(n));
      RunLeaves(l', now, script, n + 1);
      ApplyAllJoin(Later(l, now), now, script(n), Acts(script, n + 1, |RunFrom(l', now, script, n + 1).log|));
    }
  }

  // ---------- The program ----------

  class Timer {
    var fired: bool
    var onList: bool
    var expires: int

    /** cld_timer_init. */
    constructor ()
      ensures !fired && !onList && expires == 0
    {
      fired, onList, expires := false, false, 0;
    }
  }

  predicate Names(list: seq<Timer>, l: seq<Entry>) {
    |list| == |l| && forall i | 0 <= i < |l| :: l[i].t == list[i]
  }

  lemma NamesInsert(list: seq<Timer>, l: seq<Entry>, e: Entry, k: nat)
    requires Names(list, l) && k <= |list|
    ensures Names(list[..k] + [e.t] + list[k..], l[..k] + [e] + l[k..])
  {
  }

  lemma NamesRemove(list: seq<Timer>, l: seq<Entry>, k: nat)
    requires Names(list, l) && k < |list|
    ensures Names(list[..k] + list[k + 1..], l[..k] + l[k + 1..])
  {
  }

  lemma HeadOff(list: seq<Timer>, l: seq<Entry>)
    requires Names(list, l) && Ok(l) && l != []
    ensures Names(list[1..], l[1..]) && Ok(l[1..]) && l == [l[0]] + l[1..] && l[0].t == list[0]
    ensures forall u :: On(l[1..], u) <==> u != l[0].t && On(l, u)
    ensures forall e | e in l[1..] :: e in l
  {
    RemoveAt(l, l[0].t, 0);
    assert l[..0] + l[0 + 1..] == l[1..];
    RemoveOk(l, l[0].t);
    hide On, Remove;
  }

  class TimerList {
    var list: seq<Timer>
    var runmark: int
    ghost var pool: set<Timer>
    ghost var entries: seq<Entry>

    /** `entries` is the list with the timers' times; it is sorted and free of duplicates. */
    ghost predicate Shape()
      reads this, pool
    {
      && Names(list, entries) && Ok(entries)
      && forall e | e in entries :: e.t in pool && e.t.expires == e.at
    }

    /** `onList` is exact for every timer in use, `but` excepted. */
    ghost predicate Exact(but: set<Timer>)
      reads this, pool
    {
      forall t | t in pool && t !in but :: t.onList <==> On(entries, t)
    }

    ghost predicate Valid()
      reads this, pool
    {
      Shape() && Exact({})
    }

    constructor ()
      ensures Valid() && entries == [] && pool == {} && runmark == 0
    {
      list, runmark, pool, entries := [], 0, {}, [];
    }

    /** A timer is taken into use. */
    method Enrol() returns (t: Timer)
      requires Valid()
      modifies this
      ensures Valid() && fresh(t) && pool == old(pool) + {t} && entries == old(entries) && runmark == old(runmark)
      ensures !t.fired && !t.onList
    {
      t := new Timer();
      pool := pool + {t};
    }

    method IndexOf(t: Timer) returns (k: nat)
      requires Names(list, entries) && On(entries, t)
      ensures k < |list| == |entries| && entries[k].t == t && forall i | 0 <= i < k :: entries[i].t != t
    {
      ghost var m :| 0 <= m < |entries| && entries[m].t == t;
      k := 0;
      while list[k] != t
        invariant k <= m && forall i | 0 <= i < k :: entries[i].t != t
        decreases m - k
      {
        k := k + 1;
      }
    }

    /** g_list_remove of a timer that is on the list; its flag is the caller's business. */
    method Unlink(t: Timer)
      requires Valid() && t in pool && t.onList
      modifies this`list, this`entries
      ensures Shape() && Exact({t}) && !On(entries, t)
      ensures entries == Remove(old(entries), t)
    {
      hide On, Ok, Names, Remove;
      var k := IndexOf(t);
      RemoveAt(entries, t, k);
      RemoveOk(entries, t);
      NamesRemove(list, entries, k);
      forall e
        ensures e in Remove(entries, t) ==> e in entries
      {
        RemoveMembers(entries, t, e);
      }
      list, entries := list[..k] + list[k + 1..], Remove(entries, t);
    }

    /** cld_timer_add. */
    method AddTimer(timer: Timer, expires: int)
      requires Valid() && timer in pool
      modifies this`list, this`entries, timer
      ensures Valid()
      ensures entries == Apply(old(entries), runmark, Add(timer, expires))
      ensures timer.onList && !timer.fired
      ensures timer.expires == if expires <= runmark then runmark + 1 else expires
    {
      hide Ok, Insert, Remove, Names;
      if timer.onList {
        Unlink(timer);
      } else {
        RemoveAbsent(entries, timer);
      }
      var at := expires;
      if at < runmark + 1 {
        at := runmark + 1;
      }
      timer.onList := true;
      timer.fired := false;
      timer.expires := at;
      InsertTimer(timer);
    }

    method PlaceOf(timer: Timer) returns (k: nat)
      requires Shape()
      ensures k <= |list| && forall i | 0 <= i < k :: entries[i].at < timer.expires
      ensures k < |list| ==> timer.expires <= entries[k].at
    {
      k := 0;
      while k < |list| && list[k].expires < timer.expires
        invariant k <= |list|
        invariant forall i | 0 <= i < k :: entries[i].at < timer.expires
      {
        assert entries[k] in entries;
        k := k + 1;
      }
      assert k < |list| ==> entries[k] in entries;
    }

    /** g_list_insert_sorted. */
    method InsertTimer(timer: Timer)
      requires Shape() && Exact({timer}) && !On(entries, timer) && timer in pool && timer.onList
      modifies this`list, this`entries
      ensures Valid() && entries == Insert(old(entries), Entry(timer, timer.expires))
    {
      hide Insert, Ok;
      ghost var e := Entry(timer, timer.expires);
      var k := PlaceOf(timer);
      InsertAt(entries, e, k);
      InsertOk(entries, e);
      NamesInsert(list, entries, e, k);
      forall x
        ensures x in Insert(entries, e) <==> x == e || x in entries
      {
        InsertMembers(entries, e, x);
      }
      list, entries := list[..k] + [timer] + list[k..], Insert(entries, e);
    }

    /** cld_timer_del. */
    method DelTimer(timer: Timer)
      requires Valid() && timer in pool
      modifies this`list, this`entries, timer`onList
      ensures Valid() && !timer.onList
      ensures entries == Apply(old(entries), runmark, Del(timer))
    {
      if !timer.onList {
        RemoveAbsent(entries, timer);
        return;
      }
      Unlink(timer);
      timer.onList := false;
    }

    /** What a callback does. */
    method Perform(acts: seq<Act>)
      requires Valid() && forall k | 0 <= k < |acts| :: acts[k].t in pool
      modifies this`list, this`entries, pool
      ensures Valid() && entries == ApplyAll(old(entries), runmark, acts)
    {
      hide Valid, Apply;
      var k := 0;
      while k < |acts|
        invariant k <= |acts| && Valid()
        invariant ApplyAll(entries, runmark, acts[k..]) == ApplyAll(old(entries), runmark, acts)
      {
        assert acts[k..][1..] == acts[k + 1..];
        match acts[k] {
          case Add(t, expires) => AddTimer(t, expires);
          case Del(t) => DelTimer(t);
        }
        k := k + 1;
      }
    }

    /** The first timer is taken off the list and marked as fired. */
    method Pop(timer: Timer)
      requires Valid() && list != [] && timer == list[0] && timer in pool
      modifies this`list, this`entries, timer`onList, timer`fired
      ensures Valid() && old(entries) == [Entry(timer, timer.expires)] + entries
      ensures timer.fired && !timer.onList
    {
      assert entries[0] in entries;
      HeadOff(list, entries);
      hide On, Ok, Names;
      list, entries := list[1..], entries[1..];
      timer.onList := false;
      timer.fired := true;
    }

    /** One turn of the run loop: the first timer fires and its callback runs. */
    method Fire(now: int, script: Script, n: nat)
      requires Valid() && list != [] && list[0].expires <= now && runmark == now
      requires forall k | 0 <= k < |script(n)| :: script(n)[k].t in pool
      modifies this`list, this`entries, pool
      ensures Valid() && |Due(entries, now)| < |Due(old(entries), now)|
      ensures old(entries) != [] && RunFrom(old(entries), now, script, n) ==
        Outcome(RunFrom(entries, now, script, n + 1).list, [old(entries)[0]] + RunFrom(entries, now, script, n + 1).log)
    {
      ghost var l := entries;
      assert l[0] in l;
      Pop(list[0]);
      assert l[1..] == entries;
      ApplyAllDue(entries, now, script(n));
      StrikeShorter(Due(entries, now), script(n));
      Perform(script(n));
    }

    /** cld_timers_run. */
    method Run(now: int, script: Script) returns (next: int, ghost log: seq<Entry>)
      requires Valid() && forall n: nat, k: nat | k < |script(n)| :: script(n)[k].t in pool
      modifies this`list, this`entries, this`runmark, pool
      ensures Valid() && runmark == now
      ensures Outcome(entries, log) == RunFrom(old(entries), now, script, 0)
      ensures log == Fires(Due(old(entries), now), script)
      ensures forall i | 0 <= i < |list| :: list[i].expires > now
      ensures next == if list == [] then 0 else list[0].expires - now
    {
      hide Ok, Due, Fires, RunFrom, On;
      ghost var start := entries;
      runmark := now;
      log := [];
      var n := 0;
      while list != [] && list[0].expires <= now
        invariant Valid() && n == |log| && runmark == now
        invariant Outcome(RunFrom(entries, now, script, n).list, log + RunFrom(entries, now, script, n).log)
            == RunFrom(start, now, script, 0)
        decreases |Due(entries, now)|
      {
        ghost var l := entries;
        Fire(now, script, n);
        assert log + ([l[0]] + RunFrom(entries, now, script, n + 1).log)
            == log + [l[0]] + RunFrom(entries, now, script, n + 1).log;
        log := log + [l[0]];
        n := n + 1;
      }
      assert entries != [] ==> entries[0] in entries;
      NothingLeft(entries, now, script, n);
      RunFires(start, now, script);
      RunLeaves(start, now, script, 0);
      next := 0;
      if list != [] {
        if list[0].expires > now {
          next := list[0].expires - now;
        } else {
          next := 1;
        }
      }
      assert forall i | 0 <= i < |list| :: entries[i] in entries;
    }
  }
}
