/** What one batch of the `viewsWelcome` handler does, stated without its loops:
    reference definitions of the disposals, registrations and diagnostics a batch
    produces, and lemmas tying `HandleDelta` to them. */
module WelcomeProperties {
  import opened WelcomeModel

  // ---------------------------------------------------------------------------
  // Reference definitions
  // ---------------------------------------------------------------------------

  /** The entries of the contributions that pass the proposed-API gate, in order. */
  function FlaggedWelcomes(cs: seq<Contribution>): seq<ViewWelcome>
  {
    if cs == [] then []
    else
      var c := cs[|cs| - 1];
      FlaggedWelcomes(cs[..|cs| - 1]) + (if c.enableProposedApi then c.value else [])
  }

  /** The identifiers of the contributions that fail the gate, once each, in order. */
  function UnflaggedIds(cs: seq<Contribution>): seq<string>
  {
    if cs == [] then []
    else
      var c := cs[|cs| - 1];
      UnflaggedIds(cs[..|cs| - 1]) + (if c.enableProposedApi then [] else [c.extensionId])
  }

  /** The stored handle of every entry of `es` that has one, once per occurrence, in order. */
  function HandlesOf(m: ContentMap, es: seq<ViewWelcome>): seq<Handle>
  {
    if es == [] then []
    else
      var e := es[|es| - 1];
      HandlesOf(m, es[..|es| - 1]) + (if e in m then [m[e]] else [])
  }

  /** One disposal per handle, in the order given. */
  function DisposalsOf<Expr>(hs: seq<Handle>): seq<Effect<Expr>>
  {
    seq(|hs|, i requires 0 <= i < |hs| => Disposed(hs[i]))
  }

  /** One registration per entry, the `i`-th under handle `first + i`. */
  function RegistrationsOf<Expr>(first: Handle, es: seq<ViewWelcome>, deserialize: Option<string> -> Expr): seq<Effect<Expr>>
  {
    seq(|es|, i requires 0 <= i < |es| => Registered(first + i, RegistrationOf(es[i], deserialize)))
  }

  /** The registrations in a log, in order. */
  function Registrations<Expr>(log: seq<Effect<Expr>>): seq<Effect<Expr>>
  {
    if log == [] then []
    else
      var x := log[|log| - 1];
      Registrations(log[..|log| - 1]) + (if x.Registered? then [x] else [])
  }

  /** The extensions named by the proposed-API diagnostics in a log, in order. */
  function Errors<Expr>(log: seq<Effect<Expr>>): seq<string>
  {
    if log == [] then []
    else
      var x := log[|log| - 1];
      Errors(log[..|log| - 1]) + (if x.ProposedApiError? then [x.extensionId] else [])
  }

  /** No later position of `es` holds the same entry as position `i`. */
  predicate LastOccurrence(es: seq<ViewWelcome>, i: nat)
    requires i < |es|
  {
    forall j :: i < j < |es| ==> es[j] != es[i]
  }

  /** Every stored handle and every live registration was handed out before `next`. */
  ghost predicate Consistent<Expr>(m: ContentMap, w: Host<Expr>)
  {
    && (forall e :: e in m ==> m[e] < w.next)
    && (forall h :: h in w.active ==> h < w.next)
  }

  // ---------------------------------------------------------------------------
  // Concatenation
  // ---------------------------------------------------------------------------

  lemma {:induction false} FlaggedWelcomesAppend(a: seq<Contribution>, b: seq<Contribution>)
    ensures FlaggedWelcomes(a + b) == FlaggedWelcomes(a) + FlaggedWelcomes(b)
    ensures UnflaggedIds(a + b) == UnflaggedIds(a) + UnflaggedIds(b)
  {
    if b == [] {
      assert a + b == a;
    } else {
      FlaggedWelcomesAppend(a, b[..|b| - 1]);
      assert (a + b)[..|a + b| - 1] == a + b[..|b| - 1];
    }
  }

  lemma {:induction false} HandlesOfAppend(m: ContentMap, a: seq<ViewWelcome>, b: seq<ViewWelcome>)
    ensures HandlesOf(m, a + b) == HandlesOf(m, a) + HandlesOf(m, b)
  {
    if b == [] {
      assert a + b == a;
    } else {
      HandlesOfAppend(m, a, b[..|b| - 1]);
      assert (a + b)[..|a + b| - 1] == a + b[..|b| - 1];
    }
  }

  lemma {:induction false} FiltersAppend<Expr>(a: seq<Effect<Expr>>, b: seq<Effect<Expr>>)
    ensures Registrations(a + b) == Registrations(a) + Registrations(b)
    ensures Errors(a + b) == Errors(a) + Errors(b)
  {
    if b == [] {
      assert a + b == a;
    } else {
      FiltersAppend(a, b[..|b| - 1]);
      assert (a + b)[..|a + b| - 1] == a + b[..|b| - 1];
    }
  }

  lemma {:induction false} FiltersOfDisposals<Expr>(hs: seq<Handle>)
    ensures Registrations(DisposalsOf<Expr>(hs)) == [] && Errors(DisposalsOf<Expr>(hs)) == []
  {
    if hs != [] {
      var init := hs[..|hs| - 1];
      FiltersOfDisposals<Expr>(init);
      assert DisposalsOf<Expr>(hs)[..|hs| - 1] == DisposalsOf<Expr>(init);
    }
  }

  lemma {:induction false} FiltersOfRegistrations<Expr>(first: Handle, es: seq<ViewWelcome>, deserialize: Option<string> -> Expr)
    ensures Registrations(RegistrationsOf(first, es, deserialize)) == RegistrationsOf(first, es, deserialize)
    ensures Errors(RegistrationsOf(first, es, deserialize)) == []
  {
    if es != [] {
      var init := es[..|es| - 1];
      FiltersOfRegistrations(first, init, deserialize);
      assert RegistrationsOf(first, es, deserialize)[..|es| - 1] == RegistrationsOf(first, init, deserialize);
    }
  }

  lemma RegistrationsOfAppend<Expr>(first: Handle, a: seq<ViewWelcome>, b: seq<ViewWelcome>, deserialize: Option<string> -> Expr)
    ensures RegistrationsOf(first, a + b, deserialize)
         == RegistrationsOf(first, a, deserialize) + RegistrationsOf(first + |a|, b, deserialize)
  {
    var l := RegistrationsOf(first, a + b, deserialize);
    var r := RegistrationsOf(first, a, deserialize) + RegistrationsOf(first + |a|, b, deserialize);
    assert |l| == |r|;
    forall i | 0 <= i < |l| ensures l[i] == r[i] {
      if i >= |a| {
        assert (a + b)[i] == b[i - |a|];
      }
    }
  }

  lemma {:induction false} RemoveWelcomesAppend<Expr>(m: ContentMap, w: Host<Expr>, a: seq<ViewWelcome>, b: seq<ViewWelcome>)
    ensures RemoveWelcomes(m, w, a + b) == RemoveWelcomes(m, RemoveWelcomes(m, w, a), b)
  {
    if b == [] {
      assert a + b == a;
    } else {
      RemoveWelcomesAppend(m, w, a, b[..|b| - 1]);
      assert (a + b)[..|a + b| - 1] == a + b[..|b| - 1];
    }
  }

  lemma {:induction false} AddWelcomesAppend<Expr>(m: ContentMap, w: Host<Expr>, a: seq<ViewWelcome>, b: seq<ViewWelcome>,
                                                   deserialize: Option<string> -> Expr)
    ensures var r := AddWelcomes(m, w, a, deserialize);
            AddWelcomes(m, w, a + b, deserialize) == AddWelcomes(r.0, r.1, b, deserialize)
  {
    if b == [] {
      assert a + b == a;
    } else {
      AddWelcomesAppend(m, w, a, b[..|b| - 1], deserialize);
      assert (a + b)[..|a + b| - 1] == a + b[..|b| - 1];
    }
  }

  // ---------------------------------------------------------------------------
  // The removal loop
  // ---------------------------------------------------------------------------

  /** Removing entries disposes the stored handle of each entry that has one,
      once per occurrence and in order, withdraws those registrations, and
      registers or reports nothing. */
  lemma {:induction false} RemoveWelcomesEffect<Expr>(m: ContentMap, w: Host<Expr>, es: seq<ViewWelcome>)
    ensures RemoveWelcomes(m, w, es)
         == w.(active := w.active - (set h | h in HandlesOf(m, es)), log := w.log + DisposalsOf(HandlesOf(m, es)))
  {
    if es != [] {
      var init := es[..|es| - 1];
      var e := es[|es| - 1];
      RemoveWelcomesEffect(m, w, init);
      var hs := HandlesOf(m, init);
      if e in m {
        assert HandlesOf(m, es) == hs + [m[e]];
        assert (set h | h in hs + [m[e]]) == (set h | h in hs) + {m[e]};
        assert DisposalsOf<Expr>(hs + [m[e]]) == DisposalsOf<Expr>(hs) + [Disposed(m[e])];
      }
    }
  }

  /** The removal phase is the removal of the gated contributions' entries. */
  lemma {:induction false} RemovalGate<Expr>(m: ContentMap, w: Host<Expr>, removed: seq<Contribution>)
    ensures RemoveContributions(m, w, removed) == RemoveWelcomes(m, w, FlaggedWelcomes(removed))
  {
    if removed != [] {
      var init := removed[..|removed| - 1];
      RemovalGate(m, w, init);
      if removed[|removed| - 1].enableProposedApi {
        RemoveWelcomesAppend(m, w, FlaggedWelcomes(init), removed[|removed| - 1].value);
      } else {
        assert FlaggedWelcomes(removed) == FlaggedWelcomes(init) + [] == FlaggedWelcomes(init);
        assert RemoveContributions(m, w, removed) == RemoveContributions(m, w, init);
      }
    }
  }

  /** The removal phase disposes, in order, the stored handle of every entry of
      every flagged removed contribution that has one, once per occurrence; it
      registers nothing, reports nothing and hands out no handle. */
  lemma RemovalDisposesStoredHandles<Expr>(m: ContentMap, w: Host<Expr>, removed: seq<Contribution>)
    ensures
      var hs := HandlesOf(m, FlaggedWelcomes(removed));
      RemoveContributions(m, w, removed)
      == w.(active := w.active - (set h | h in hs), log := w.log + DisposalsOf(hs))
  {
    RemovalGate(m, w, removed);
    RemoveWelcomesEffect(m, w, FlaggedWelcomes(removed));
  }

  /** The removal phase hands out no handle and logs no registration and no diagnostic. */
  lemma RemovalOnlyDisposes<Expr>(m: ContentMap, w: Host<Expr>, removed: seq<Contribution>)
    ensures
      var R := RemoveContributions(m, w, removed);
      && R.next == w.next
      && Registrations(R.log) == Registrations(w.log)
      && Errors(R.log) == Errors(w.log)
  {
    var hs := HandlesOf(m, FlaggedWelcomes(removed));
    RemovalDisposesStoredHandles(m, w, removed);
    FiltersAppend(w.log, DisposalsOf<Expr>(hs));
    FiltersOfDisposals<Expr>(hs);
  }

  /** A removed contribution without the proposed-API flag changes nothing,
      wherever it stands in the batch. */
  lemma RemovalSkipsUnflagged<Expr>(m: ContentMap, w: Host<Expr>, a: seq<Contribution>, c: Contribution, b: seq<Contribution>)
    requires !c.enableProposedApi
    ensures RemoveContributions(m, w, a + [c] + b) == RemoveContributions(m, w, a + b)
  {
    FlaggedWelcomesAppend(a, [c]);
    FlaggedWelcomesAppend(a + [c], b);
    FlaggedWelcomesAppend(a, b);
    assert [c][..0] == [];
    assert FlaggedWelcomes([c]) == [];
    assert a + [c] + b == (a + [c]) + b;
    assert FlaggedWelcomes(a + [c] + b) == FlaggedWelcomes(a + b);
    RemovalGate(m, w, a + [c] + b);
    RemovalGate(m, w, a + b);
  }

  /** A removed entry with no stored handle is passed over silently: nothing is
      disposed or reported for it, wherever it stands. */
  lemma RemovalSkipsUnregistered<Expr>(m: ContentMap, w: Host<Expr>, a: seq<ViewWelcome>, e: ViewWelcome, b: seq<ViewWelcome>)
    requires e !in m
    ensures RemoveWelcomes(m, w, a + [e] + b) == RemoveWelcomes(m, w, a + b)
  {
    HandlesOfAppend(m, a, [e]);
    HandlesOfAppend(m, a + [e], b);
    HandlesOfAppend(m, a, b);
    assert [e][..0] == [];
    assert HandlesOf(m, [e]) == [];
    assert HandlesOf(m, a + [e] + b) == HandlesOf(m, a + b);
    RemoveWelcomesEffect(m, w, a + [e] + b);
    RemoveWelcomesEffect(m, w, a + b);
  }

  // ---------------------------------------------------------------------------
  // The addition loop
  // ---------------------------------------------------------------------------

  /** Adding entries hands out one fresh handle per entry, in order, and logs
      exactly one registration per entry with its view, its contents and its
      deserialized `when`. */
  lemma {:induction false} AddWelcomesLog<Expr>(m: ContentMap, w: Host<Expr>, es: seq<ViewWelcome>,
                                                deserialize: Option<string> -> Expr)
    ensures
      var r := AddWelcomes(m, w, es, deserialize);
      && r.1.next == w.next + |es|
      && r.1.log == w.log + RegistrationsOf(w.next, es, deserialize)
  {
    if es != [] {
      var init := es[..|es| - 1];
      AddWelcomesLog(m, w, init, deserialize);
      assert RegistrationsOf(w.next, es, deserialize)
          == RegistrationsOf(w.next, init, deserialize)
             + [Registered(w.next + |init|, RegistrationOf(es[|es| - 1], deserialize))];
    }
  }

  /** What the addition loop stores depends on the registry only through the
      next handle, and what it makes live only through the live registrations. */
  lemma {:induction false} AddWelcomesFrame<Expr>(m: ContentMap, w1: Host<Expr>, w2: Host<Expr>, es: seq<ViewWelcome>,
                                                  deserialize: Option<string> -> Expr)
    requires w1.next == w2.next
    ensures
      var r1 := AddWelcomes(m, w1, es, deserialize);
      var r2 := AddWelcomes(m, w2, es, deserialize);
      && r1.0 == r2.0 && r1.1.next == r2.1.next
      && (w1.active == w2.active ==> r1.1.active == r2.1.active)
  {
    if es != [] {
      AddWelcomesFrame(m, w1, w2, es[..|es| - 1], deserialize);
    }
  }

  /** After adding entries the map's keys are the old keys plus the added entries. */
  lemma {:induction false} AddWelcomesKeys<Expr>(m: ContentMap, w: Host<Expr>, es: seq<ViewWelcome>,
                                                 deserialize: Option<string> -> Expr)
    ensures AddWelcomes(m, w, es, deserialize).0.Keys == m.Keys + (set e | e in es)
  {
    if es != [] {
      var init := es[..|es| - 1];
      AddWelcomesKeys(m, w, init, deserialize);
      assert (set e | e in es) == (set e | e in init) + {es[|es| - 1]};
    }
  }

  /** An entry that is not added keeps its old handle. */
  lemma {:induction false} AddWelcomesKeeps<Expr>(m: ContentMap, w: Host<Expr>, es: seq<ViewWelcome>,
                                                  deserialize: Option<string> -> Expr)
    ensures
      var m' := AddWelcomes(m, w, es, deserialize).0;
      forall e :: e in m && e !in es ==> e in m' && m'[e] == m[e]
  {
    if es != [] {
      var init := es[..|es| - 1];
      AddWelcomesKeeps(m, w, init, deserialize);
    }
  }

  /** An added entry is sent to the handle of its last registration: the last write wins. */
  lemma {:induction false} AddWelcomesLastWrite<Expr>(m: ContentMap, w: Host<Expr>, es: seq<ViewWelcome>,
                                                      deserialize: Option<string> -> Expr)
    ensures
      var m' := AddWelcomes(m, w, es, deserialize).0;
      forall i :: 0 <= i < |es| && LastOccurrence(es, i) ==> es[i] in m' && m'[es[i]] == w.next + i
  {
    if es != [] {
      var init := es[..|es| - 1];
      var last := es[|es| - 1];
      AddWelcomesLastWrite(m, w, init, deserialize);
      AddWelcomesLog(m, w, init, deserialize);
      var r0 := AddWelcomes(m, w, init, deserialize);
      var m' := AddWelcomes(m, w, es, deserialize).0;
      assert m' == r0.0[last := w.next + |init|];
      forall i | 0 <= i < |es| && LastOccurrence(es, i) ensures es[i] in m' && m'[es[i]] == w.next + i {
        if i < |init| {
          assert es[i] != last;
          assert init[i] == es[i];
          assert LastOccurrence(init, i);
        }
      }
    }
  }

  /** After adding entries, the live registrations are the old ones plus one
      per added entry under handles `next`, `next + 1`, ...; live registrations
      under earlier handles are untouched. */
  lemma {:induction false} AddWelcomesActive<Expr>(m: ContentMap, w: Host<Expr>, es: seq<ViewWelcome>,
                                                   deserialize: Option<string> -> Expr)
    ensures
      var a := AddWelcomes(m, w, es, deserialize).1.active;
      && (forall h :: h in a <==> h in w.active || w.next <= h < w.next + |es|)
      && (forall h :: h in w.active && h < w.next ==> a[h] == w.active[h])
      && (forall i :: 0 <= i < |es| ==> a[w.next + i] == RegistrationOf(es[i], deserialize))
  {
    if es != [] {
      var init := es[..|es| - 1];
      AddWelcomesActive(m, w, init, deserialize);
      AddWelcomesLog(m, w, init, deserialize);
      var r0 := AddWelcomes(m, w, init, deserialize);
      var a := AddWelcomes(m, w, es, deserialize).1.active;
      assert a == r0.1.active[w.next + |init| := RegistrationOf(es[|es| - 1], deserialize)];
      forall i | 0 <= i < |es| ensures a[w.next + i] == RegistrationOf(es[i], deserialize) {
        if i < |init| {
          assert init[i] == es[i];
        }
      }
    }
  }

  /** Every added entry ends up stored under a handle handed out during the
      addition whose registration is live and carries that entry's view,
      contents and deserialized `when`. */
  lemma {:induction false} AddedWelcomesLive<Expr>(m: ContentMap, w: Host<Expr>, es: seq<ViewWelcome>,
                                                   deserialize: Option<string> -> Expr)
    ensures
      var r := AddWelcomes(m, w, es, deserialize);
      forall e :: e in es ==>
        && e in r.0
        && w.next <= r.0[e] < r.1.next
        && r.0[e] in r.1.active
        && r.1.active[r.0[e]] == RegistrationOf(e, deserialize)
  {
    if es != [] {
      var init := es[..|es| - 1];
      var last := es[|es| - 1];
      AddedWelcomesLive(m, w, init, deserialize);
      AddWelcomesLog(m, w, init, deserialize);
      var r0 := AddWelcomes(m, w, init, deserialize);
      var r := AddWelcomes(m, w, es, deserialize);
      assert r.0 == r0.0[last := r0.1.next];
      assert r.1 == Register(r0.1, RegistrationOf(last, deserialize));
      forall e | e in es && e != last ensures e in init {
        var k :| 0 <= k < |es| && es[k] == e;
        assert init[k] == e;
      }
    }
  }

  /** The addition phase behaves, on the map, the next handle and the live
      registrations, as the addition of the gated contributions' entries. */
  lemma {:induction false} AdditionGate<Expr>(m: ContentMap, w: Host<Expr>, added: seq<Contribution>,
                                              deserialize: Option<string> -> Expr)
    ensures
      var r := AddContributions(m, w, added, deserialize);
      var g := AddWelcomes(m, w, FlaggedWelcomes(added), deserialize);
      r.0 == g.0 && r.1.next == g.1.next && r.1.active == g.1.active
  {
    if added != [] {
      var init := added[..|added| - 1];
      var c := added[|added| - 1];
      var F0 := FlaggedWelcomes(init);
      AdditionGate(m, w, init, deserialize);
      if c.enableProposedApi {
        var r0 := AddContributions(m, w, init, deserialize);
        var g0 := AddWelcomes(m, w, F0, deserialize);
        assert AddContributions(m, w, added, deserialize) == AddWelcomes(r0.0, r0.1, c.value, deserialize);
        assert FlaggedWelcomes(added) == F0 + c.value;
        AddWelcomesAppend(m, w, F0, c.value, deserialize);
        AddWelcomesFrame(r0.0, r0.1, g0.1, c.value, deserialize);
      } else {
        assert FlaggedWelcomes(added) == F0 + [] == F0;
      }
    }
  }

  /** The addition phase hands out one fresh handle per gated entry, in order. */
  lemma AdditionNext<Expr>(m: ContentMap, w: Host<Expr>, added: seq<Contribution>,
                           deserialize: Option<string> -> Expr)
    ensures AddContributions(m, w, added, deserialize).1.next == w.next + |FlaggedWelcomes(added)|
  {
    AdditionGate(m, w, added, deserialize);
    AddWelcomesLog(m, w, FlaggedWelcomes(added), deserialize);
  }

  /** Adding entries logs one registration per entry and no diagnostic. */
  lemma AddWelcomesFilters<Expr>(m: ContentMap, w: Host<Expr>, es: seq<ViewWelcome>,
                                 deserialize: Option<string> -> Expr)
    ensures
      var log := AddWelcomes(m, w, es, deserialize).1.log;
      && Registrations(log) == Registrations(w.log) + RegistrationsOf(w.next, es, deserialize)
      && Errors(log) == Errors(w.log)
  {
    AddWelcomesLog(m, w, es, deserialize);
    FiltersAppend(w.log, RegistrationsOf(w.next, es, deserialize));
    FiltersOfRegistrations(w.next, es, deserialize);
  }

  /** A proposed-API diagnostic adds its extension to the diagnostics and no registration. */
  lemma ReportFilters<Expr>(w: Host<Expr>, extensionId: string)
    ensures
      var log := ReportProposedApiError(w, extensionId).log;
      && Registrations(log) == Registrations(w.log)
      && Errors(log) == Errors(w.log) + [extensionId]
  {
    var err: Effect<Expr> := ProposedApiError(extensionId);
    FiltersAppend(w.log, [err]);
    assert [err][..0] == [];
  }

  /** The registrations the addition phase logs are exactly one per gated entry,
      in order, under consecutive fresh handles. */
  lemma {:induction false} AdditionRegistrations<Expr>(m: ContentMap, w: Host<Expr>, added: seq<Contribution>,
                                                       deserialize: Option<string> -> Expr)
    ensures Registrations(AddContributions(m, w, added, deserialize).1.log)
         == Registrations(w.log) + RegistrationsOf(w.next, FlaggedWelcomes(added), deserialize)
  {
    if added != [] {
      var init := added[..|added| - 1];
      var c := added[|added| - 1];
      var F0 := FlaggedWelcomes(init);
      var r0 := AddContributions(m, w, init, deserialize);
      AdditionRegistrations(m, w, init, deserialize);
      if c.enableProposedApi {
        assert AddContributions(m, w, added, deserialize) == AddWelcomes(r0.0, r0.1, c.value, deserialize);
        assert FlaggedWelcomes(added) == F0 + c.value;
        AdditionNext(m, w, init, deserialize);
        AddWelcomesFilters(r0.0, r0.1, c.value, deserialize);
        RegistrationsOfAppend(w.next, F0, c.value, deserialize);
      } else {
        assert AddContributions(m, w, added, deserialize) == (r0.0, ReportProposedApiError(r0.1, c.extensionId));
        assert FlaggedWelcomes(added) == F0 + [] == F0;
        ReportFilters(r0.1, c.extensionId);
      }
    }
  }

  /** The addition phase reports exactly one diagnostic per contribution
      without the flag, naming it, in order. */
  lemma {:induction false} AdditionErrors<Expr>(m: ContentMap, w: Host<Expr>, added: seq<Contribution>,
                                                deserialize: Option<string> -> Expr)
    ensures Errors(AddContributions(m, w, added, deserialize).1.log) == Errors(w.log) + UnflaggedIds(added)
  {
    if added != [] {
      var init := added[..|added| - 1];
      var c := added[|added| - 1];
      var r0 := AddContributions(m, w, init, deserialize);
      AdditionErrors(m, w, init, deserialize);
      if c.enableProposedApi {
        assert AddContributions(m, w, added, deserialize) == AddWelcomes(r0.0, r0.1, c.value, deserialize);
        AddWelcomesFilters(r0.0, r0.1, c.value, deserialize);
      } else {
        assert AddContributions(m, w, added, deserialize) == (r0.0, ReportProposedApiError(r0.1, c.extensionId));
        ReportFilters(r0.1, c.extensionId);
      }
    }
  }

  /** The addition phase only appends to the log, and never a disposal. */
  lemma {:induction false} AdditionNeverDisposes<Expr>(m: ContentMap, w: Host<Expr>, added: seq<Contribution>,
                                                       deserialize: Option<string> -> Expr)
    ensures
      var log := AddContributions(m, w, added, deserialize).1.log;
      && |w.log| <= |log| && log[..|w.log|] == w.log
      && (forall k :: |w.log| <= k < |log| ==> !log[k].Disposed?)
  {
    if added != [] {
      var init := added[..|added| - 1];
      var c := added[|added| - 1];
      var r0 := AddContributions(m, w, init, deserialize);
      AdditionNeverDisposes(m, w, init, deserialize);
      if c.enableProposedApi {
        assert AddContributions(m, w, added, deserialize) == AddWelcomes(r0.0, r0.1, c.value, deserialize);
        AddWelcomesLog(r0.0, r0.1, c.value, deserialize);
      }
    }
  }

  // ---------------------------------------------------------------------------
  // One batch
  // ---------------------------------------------------------------------------

  /** The map after a batch does not depend on what was removed: it is the old
      map with the gated added entries stored, and removal never deletes a key. */
  lemma HandleDeltaMap<Expr>(m: ContentMap, w: Host<Expr>, added: seq<Contribution>, removed: seq<Contribution>,
                             deserialize: Option<string> -> Expr)
    ensures HandleDelta(m, w, added, removed, deserialize).0 == AddWelcomes(m, w, FlaggedWelcomes(added), deserialize).0
    ensures HandleDelta(m, w, added, removed, deserialize).0 == HandleDelta(m, w, added, [], deserialize).0
  {
    var R := RemoveContributions(m, w, removed);
    RemovalDisposesStoredHandles(m, w, removed);
    AdditionGate(m, R, added, deserialize);
    AdditionGate(m, w, added, deserialize);
    AddWelcomesFrame(m, R, w, FlaggedWelcomes(added), deserialize);
  }

  /** After a batch the map's keys are the old keys plus the entries of the
      flagged added contributions; no key is ever removed, and every entry not
      among those keeps its old handle. */
  lemma BatchKeys<Expr>(m: ContentMap, w: Host<Expr>, added: seq<Contribution>, removed: seq<Contribution>,
                        deserialize: Option<string> -> Expr)
    ensures
      var m' := HandleDelta(m, w, added, removed, deserialize).0;
      && m'.Keys == m.Keys + (set e | e in FlaggedWelcomes(added))
      && (forall e :: e in m && e !in FlaggedWelcomes(added) ==> e in m' && m'[e] == m[e])
  {
    HandleDeltaMap(m, w, added, removed, deserialize);
    AddWelcomesKeys(m, w, FlaggedWelcomes(added), deserialize);
    AddWelcomesKeeps(m, w, FlaggedWelcomes(added), deserialize);
  }

  /** Each entry of a flagged added contribution is registered exactly once
      per occurrence, in order, with its view, its contents and its
      deserialized `when`, under a fresh handle; afterwards the map sends the
      entry to the handle of its last registration, and that registration is live. */
  lemma BatchRegistersFlagged<Expr>(m: ContentMap, w: Host<Expr>, added: seq<Contribution>, removed: seq<Contribution>,
                                    deserialize: Option<string> -> Expr)
    ensures
      var F := FlaggedWelcomes(added);
      var r := HandleDelta(m, w, added, removed, deserialize);
      && Registrations(r.1.log) == Registrations(w.log) + RegistrationsOf(w.next, F, deserialize)
      && r.1.next == w.next + |F|
      && (forall i :: 0 <= i < |F| && LastOccurrence(F, i) ==> F[i] in r.0 && r.0[F[i]] == w.next + i)
      && (forall e :: e in F ==> e in r.0 && r.0[e] in r.1.active && r.1.active[r.0[e]] == RegistrationOf(e, deserialize))
  {
    var F := FlaggedWelcomes(added);
    var R := RemoveContributions(m, w, removed);
    assert HandleDelta(m, w, added, removed, deserialize) == AddContributions(m, R, added, deserialize);
    RemovalOnlyDisposes(m, w, removed);
    AdditionRegistrations(m, R, added, deserialize);
    AdditionNext(m, R, added, deserialize);
    AdditionGate(m, R, added, deserialize);
    AddWelcomesLastWrite(m, R, F, deserialize);
    AddedWelcomesLive(m, R, F, deserialize);
  }

  /** Diagnostics come only from the addition path: one per added contribution
      without the flag, naming it, in order; a batch whose added contributions
      are all flagged reports nothing. */
  lemma BatchDiagnostics<Expr>(m: ContentMap, w: Host<Expr>, added: seq<Contribution>, removed: seq<Contribution>,
                               deserialize: Option<string> -> Expr)
    ensures Errors(HandleDelta(m, w, added, removed, deserialize).1.log) == Errors(w.log) + UnflaggedIds(added)
    ensures (forall c :: c in added ==> c.enableProposedApi) ==>
              Errors(HandleDelta(m, w, added, removed, deserialize).1.log) == Errors(w.log)
  {
    var R := RemoveContributions(m, w, removed);
    assert HandleDelta(m, w, added, removed, deserialize) == AddContributions(m, R, added, deserialize);
    RemovalOnlyDisposes(m, w, removed);
    AdditionErrors(m, R, added, deserialize);
    if forall c :: c in added ==> c.enableProposedApi {
      AllFlaggedReportNothing(added);
    }
  }

  lemma {:induction false} AllFlaggedReportNothing(cs: seq<Contribution>)
    requires forall c :: c in cs ==> c.enableProposedApi
    ensures UnflaggedIds(cs) == []
  {
    if cs != [] {
      AllFlaggedReportNothing(cs[..|cs| - 1]);
      assert cs[|cs| - 1] in cs;
    }
  }

  /** Within a batch every disposal precedes every registration and every
      diagnostic: the calls a batch appends to the log are a run of disposals
      followed by a run of registrations and diagnostics. */
  lemma DisposalsPrecedeAdditions<Expr>(m: ContentMap, w: Host<Expr>, added: seq<Contribution>, removed: seq<Contribution>,
                                        deserialize: Option<string> -> Expr)
    ensures
      var log := HandleDelta(m, w, added, removed, deserialize).1.log;
      && |w.log| <= |log| && log[..|w.log|] == w.log
      && forall i, j :: |w.log| <= i < j < |log| && log[j].Disposed? ==> log[i].Disposed?
  {
    var R := RemoveContributions(m, w, removed);
    var hs := HandlesOf(m, FlaggedWelcomes(removed));
    RemovalDisposesStoredHandles(m, w, removed);
    AdditionNeverDisposes(m, R, added, deserialize);
    var log := HandleDelta(m, w, added, removed, deserialize).1.log;
    forall i, j | |w.log| <= i < j < |log| && log[j].Disposed? ensures log[i].Disposed? {
      assert j < |R.log|;
      assert log[i] == R.log[i] == DisposalsOf<Expr>(hs)[i - |w.log|];
    }
    assert log[..|w.log|] == R.log[..|w.log|];
  }

  /** A batch keeps the map and the registry consistent: stored handles and live
      registrations were all handed out before the registry's next handle. */
  lemma BatchPreservesConsistency<Expr>(m: ContentMap, w: Host<Expr>, added: seq<Contribution>, removed: seq<Contribution>,
                                        deserialize: Option<string> -> Expr)
    requires Consistent(m, w)
    ensures
      var r := HandleDelta(m, w, added, removed, deserialize);
      Consistent(r.0, r.1)
  {
    var F := FlaggedWelcomes(added);
    var R := RemoveContributions(m, w, removed);
    RemovalDisposesStoredHandles(m, w, removed);
    AdditionGate(m, R, added, deserialize);
    AddWelcomesLog(m, R, F, deserialize);
    AddWelcomesKeys(m, R, F, deserialize);
    AddWelcomesKeeps(m, R, F, deserialize);
    AddWelcomesActive(m, R, F, deserialize);
    AddedWelcomesLive(m, R, F, deserialize);
  }

  /** From a consistent state, the live registrations after a batch are exactly
      the old ones whose handles the removal phase did not dispose, each
      unchanged, plus one fresh registration per entry of a flagged added
      contribution: a fresh handle never overwrites a live registration. */
  lemma BatchActive<Expr>(m: ContentMap, w: Host<Expr>, added: seq<Contribution>, removed: seq<Contribution>,
                          deserialize: Option<string> -> Expr)
    requires Consistent(m, w)
    ensures
      var F := FlaggedWelcomes(added);
      var disposed := set h | h in HandlesOf(m, FlaggedWelcomes(removed));
      var a := HandleDelta(m, w, added, removed, deserialize).1.active;
      && (forall h :: h in a <==> (h in w.active && h !in disposed) || w.next <= h < w.next + |F|)
      && (forall h :: h in w.active && h !in disposed ==> a[h] == w.active[h])
      && (forall i :: 0 <= i < |F| ==> a[w.next + i] == RegistrationOf(F[i], deserialize))
  {
    BatchActiveIsAddition(m, w, added, removed, deserialize);
    var R := RemoveContributions(m, w, removed);
    AddWelcomesActive(m, R, FlaggedWelcomes(added), deserialize);
    ActiveAfterPhases(w, R, FlaggedWelcomes(added), (set h | h in HandlesOf(m, FlaggedWelcomes(removed))),
                      deserialize, AddWelcomes(m, R, FlaggedWelcomes(added), deserialize).1.active);
  }

  /** Adding entries after withdrawing the handles `disposed` from registrations
      that all lie below the next fresh handle: the result holds the surviving
      registrations unchanged and the new ones under the fresh handles. */
  lemma ActiveAfterPhases<Expr>(w: Host<Expr>, mid: Host<Expr>, es: seq<ViewWelcome>,
                                disposed: set<Handle>, deserialize: Option<string> -> Expr,
                                a: map<Handle, Registration<Expr>>)
    requires forall h :: h in w.active ==> h < w.next
    requires mid.next == w.next && mid.active == w.active - disposed
    requires forall h :: h in a <==> h in mid.active || mid.next <= h < mid.next + |es|
    requires forall h :: h in mid.active && h < mid.next ==> a[h] == mid.active[h]
    requires forall i :: 0 <= i < |es| ==> a[mid.next + i] == RegistrationOf(es[i], deserialize)
    ensures forall h :: h in a <==> (h in w.active && h !in disposed) || w.next <= h < w.next + |es|
    ensures forall h :: h in w.active && h !in disposed ==> a[h] == w.active[h]
    ensures forall i :: 0 <= i < |es| ==> a[w.next + i] == RegistrationOf(es[i], deserialize)
  {
  }

  /** The live registrations after a batch are those the addition phase makes
      from the removal phase's, which are the old ones minus the disposed handles. */
  lemma BatchActiveIsAddition<Expr>(m: ContentMap, w: Host<Expr>, added: seq<Contribution>, removed: seq<Contribution>,
                                    deserialize: Option<string> -> Expr)
    ensures
      var R := RemoveContributions(m, w, removed);
      && R.next == w.next
      && R.active == w.active - (set h | h in HandlesOf(m, FlaggedWelcomes(removed)))
      && HandleDelta(m, w, added, removed, deserialize).1.active
         == AddWelcomes(m, R, FlaggedWelcomes(added), deserialize).1.active
  {
    RemovalDisposesStoredHandles(m, w, removed);
    AdditionGate(m, RemoveContributions(m, w, removed), added, deserialize);
  }

  /** The removal loop disposes a stored handle but leaves it in the map, so
      removing the same flagged contribution in two batches disposes the same
      handle in each, and the map still holds the entry afterwards. */
  lemma RepeatedRemovalDisposesAgain<Expr>(m: ContentMap, w: Host<Expr>, c: Contribution, e: ViewWelcome,
                                           deserialize: Option<string> -> Expr)
    requires c.enableProposedApi && e in c.value && e in m
    ensures
      var r1 := HandleDelta(m, w, [], [c], deserialize);
      var r2 := HandleDelta(r1.0, r1.1, [], [c], deserialize);
      && r1.0 == m && r2.0 == m
      && |w.log| <= |r1.1.log| <= |r2.1.log|
      && Disposed(m[e]) in r1.1.log[|w.log|..]
      && Disposed(m[e]) in r2.1.log[|r1.1.log|..]
  {
    var r1 := HandleDelta(m, w, [], [c], deserialize);
    var hs := HandlesOf(m, FlaggedWelcomes([c]));
    assert [c][..0] == [];
    assert FlaggedWelcomes([c]) == c.value;
    HandleInHandlesOf(m, c.value, e);
    var k :| 0 <= k < |hs| && hs[k] == m[e];
    RemovalDisposesStoredHandles(m, w, [c]);
    RemovalDisposesStoredHandles(m, r1.1, [c]);
    assert r1.1.log[|w.log|..] == DisposalsOf<Expr>(hs);
    assert DisposalsOf<Expr>(hs)[k] == Disposed(m[e]);
  }

  lemma {:induction false} HandleInHandlesOf(m: ContentMap, es: seq<ViewWelcome>, e: ViewWelcome)
    requires e in es && e in m
    ensures m[e] in HandlesOf(m, es)
  {
    if es[|es| - 1] != e {
      var k :| 0 <= k < |es| && es[k] == e;
      assert es[..|es| - 1][k] == e;
      HandleInHandlesOf(m, es[..|es| - 1], e);
    }
  }
}
