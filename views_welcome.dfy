/** The `ViewsWelcomeContribution` collaborators contribution: a map from welcome
    entries to the disposables the views registry returned for them, kept in
    step with the `viewsWelcome` extension point by a handler that processes one
    `{added, removed}` batch at a time. */
module ViewsWelcome {
  import opened WelcomeModel
  import opened WelcomeProperties

  /** The handler's collaborators: the views registry that registers welcome
      content and returns a disposable for it, those disposables, and the
      per-contribution diagnostic collectors. Each call is recorded in `log`. */
  class Collaborators<Expr> {
    var next: Handle
    var active: map<Handle, Registration<Expr>>
    var log: seq<Effect<Expr>>

    function State(): Host<Expr>
      reads this
    {
      Host(next, active, log)
    }

    constructor ()
      ensures State() == Host(0, map[], [])
    {
      next, active, log := 0, map[], [];
    }

    /** `viewsRegistry.registerViewWelcomeContent(view, {content, when})`. */
    method RegisterViewWelcomeContent(view: string, content: string, when: Expr) returns (disposable: Handle)
      modifies this
      ensures disposable == old(next)
      ensures State() == Register(old(State()), Registration(view, content, when))
    {
      disposable := next;
      active := active[next := Registration(view, content, when)];
      log := log + [Registered(next, Registration(view, content, when))];
      next := next + 1;
    }

    /** `disposable.dispose()`. */
    method DisposeRegistration(disposable: Handle)
      modifies this
      ensures State() == Dispose(old(State()), disposable)
    {
      active := active - {disposable};
      log := log + [Disposed(disposable)];
    }

    /** `contribution.collector.error(...)` with the proposed-API message for `extensionId`. */
    method CollectorError(extensionId: string)
      modifies this
      ensures State() == ReportProposedApiError(old(State()), extensionId)
    {
      log := log + [ProposedApiError(extensionId)];
    }
  }

  class ViewsWelcomeContribution<Expr> {
    var viewWelcomeContents: ContentMap
    const collaborators: Collaborators<Expr>
    /** `ContextKeyExpr.deserialize`, left uninterpreted. */
    const deserialize: Option<string> -> Expr

    ghost predicate Valid()
      reads this, collaborators
    {
      Consistent(viewWelcomeContents, collaborators.State())
    }

    constructor (collaborators: Collaborators<Expr>, deserialize: Option<string> -> Expr)
      requires forall h :: h in collaborators.active ==> h < collaborators.next
      ensures Valid()
      ensures viewWelcomeContents == map[]
      ensures this.collaborators == collaborators && this.deserialize == deserialize
    {
      viewWelcomeContents := map[];
      this.collaborators := collaborators;
      this.deserialize := deserialize;
    }

    /** The extension point's handler for one batch: first every removed
        contribution, then every added one. */
    method HandleDelta(added: seq<Contribution>, removed: seq<Contribution>)
      requires Valid()
      modifies this, collaborators
      ensures Valid()
      ensures (viewWelcomeContents, collaborators.State())
           == WelcomeModel.HandleDelta(old(viewWelcomeContents), old(collaborators.State()), added, removed, deserialize)
    {
      ghost var m0 := viewWelcomeContents;
      ghost var w0 := collaborators.State();

      for i := 0 to |removed|
        invariant viewWelcomeContents == m0
        invariant collaborators.State() == RemoveContributions(m0, w0, removed[..i])
      {
        var contribution := removed[i];
        assert removed[..i + 1][..i] == removed[..i];
        // Proposed API check
        if !contribution.enableProposedApi {
          continue;
        }
        ghost var wi := collaborators.State();
        for j := 0 to |contribution.value|
          invariant viewWelcomeContents == m0
          invariant collaborators.State() == RemoveWelcomes(m0, wi, contribution.value[..j])
        {
          var welcome := contribution.value[j];
          assert contribution.value[..j + 1][..j] == contribution.value[..j];
          // `get` yields no disposable for an entry that was never stored
          if welcome in viewWelcomeContents {
            var disposable := viewWelcomeContents[welcome];
            collaborators.DisposeRegistration(disposable);
          }
        }
        assert contribution.value[..|contribution.value|] == contribution.value;
      }
      assert removed[..|removed|] == removed;

      ghost var w1 := collaborators.State();
      for i := 0 to |added|
        invariant (viewWelcomeContents, collaborators.State()) == AddContributions(m0, w1, added[..i], deserialize)
      {
        var contribution := added[i];
        assert added[..i + 1][..i] == added[..i];
        // Proposed API check
        if !contribution.enableProposedApi {
          collaborators.CollectorError(contribution.extensionId);
          continue;
        }
        ghost var mi, wi := viewWelcomeContents, collaborators.State();
        for j := 0 to |contribution.value|
          invariant (viewWelcomeContents, collaborators.State()) == AddWelcomes(mi, wi, contribution.value[..j], deserialize)
        {
          var welcome := contribution.value[j];
          assert contribution.value[..j + 1][..j] == contribution.value[..j];
          var disposable := collaborators.RegisterViewWelcomeContent(welcome.view, welcome.contents, deserialize(welcome.when));
          viewWelcomeContents := viewWelcomeContents[welcome := disposable];
        }
        assert contribution.value[..|contribution.value|] == contribution.value;
      }
      assert added[..|added|] == added;

      BatchPreservesConsistency(m0, w0, added, removed, deserialize);
    }
  }
}
