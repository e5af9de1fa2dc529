/** Values the `viewsWelcome` batch handler works on, and what one batch does to
    them, written as functions. The handler in ViewsWelcome is proved to compute
    exactly `HandleDelta`; WelcomeProperties states what `HandleDelta` means. */
module WelcomeModel {

  datatype Option<+T> = None | Some(value: T)

  /** The disposable the views registry returns for one registration. Fresh
      handles are numbered, so a new one differs from every earlier one. */
  type Handle = nat

  /** One declared welcome entry. `id` is the entry's object identity: the
      handler keys its map by the entry object, so two entries with equal
      fields but different ids are different keys. */
  datatype ViewWelcome = ViewWelcome(id: nat, view: string, contents: string, when: Option<string>)

  /** One extension's contribution to the point: its identifier, whether it may
      use proposed API, and its entries in declaration order. */
  datatype Contribution = Contribution(extensionId: string, enableProposedApi: bool, value: seq<ViewWelcome>)

  /** What the handler hands to the views registry for one entry; `when` is the
      deserialized context-key expression, of a type this model leaves open. */
  datatype Registration<Expr> = Registration(view: string, content: string, when: Expr)

  /** One call from the handler into its collaborators. */
  datatype Effect<Expr> =
    | Registered(handle: Handle, registration: Registration<Expr>)
    | Disposed(handle: Handle)
    | ProposedApiError(extensionId: string)

  /** The collaborators as the handler sees them: the handle the registry will
      hand out next, the registrations that are live, and every call received,
      in order. */
  datatype Host<Expr> = Host(next: Handle, active: map<Handle, Registration<Expr>>, log: seq<Effect<Expr>>)

  /** The stored handle of each entry, keyed by entry identity. */
  type ContentMap = map<ViewWelcome, Handle>

  function RegistrationOf<Expr>(welcome: ViewWelcome, deserialize: Option<string> -> Expr): Registration<Expr>
  {
    Registration(welcome.view, welcome.contents, deserialize(welcome.when))
  }

  /** `registerViewWelcomeContent`: the registration becomes live under a fresh handle. */
  function Register<Expr>(w: Host<Expr>, r: Registration<Expr>): Host<Expr>
  {
    Host(w.next + 1, w.active[w.next := r], w.log + [Registered(w.next, r)])
  }

  /** `dispose()` on a handle: the registration, if still live, is withdrawn. */
  function Dispose<Expr>(w: Host<Expr>, h: Handle): Host<Expr>
  {
    w.(active := w.active - {h}, log := w.log + [Disposed(h)])
  }

  /** `collector.error(...)` of a contribution, tagged with the extension's identifier. */
  function ReportProposedApiError<Expr>(w: Host<Expr>, extensionId: string): Host<Expr>
  {
    w.(log := w.log + [ProposedApiError(extensionId)])
  }

  /** The inner removal loop over one contribution's entries: each entry with a
      stored handle gets that handle disposed; the map itself is not touched. */
  function RemoveWelcomes<Expr>(m: ContentMap, w: Host<Expr>, welcomes: seq<ViewWelcome>): Host<Expr>
  {
    if welcomes == [] then w
    else
      var w' := RemoveWelcomes(m, w, welcomes[..|welcomes| - 1]);
      var welcome := welcomes[|welcomes| - 1];
      if welcome in m then Dispose(w', m[welcome]) else w'
  }

  /** The outer removal loop: contributions without the proposed-API flag are skipped. */
  function RemoveContributions<Expr>(m: ContentMap, w: Host<Expr>, removed: seq<Contribution>): Host<Expr>
  {
    if removed == [] then w
    else
      var w' := RemoveContributions(m, w, removed[..|removed| - 1]);
      var contribution := removed[|removed| - 1];
      if !contribution.enableProposedApi then w' else RemoveWelcomes(m, w', contribution.value)
  }

  /** The inner addition loop: each entry is registered and its handle stored,
      overwriting whatever the map held for that entry. */
  function AddWelcomes<Expr>(m: ContentMap, w: Host<Expr>, welcomes: seq<ViewWelcome>,
                             deserialize: Option<string> -> Expr): (ContentMap, Host<Expr>)
  {
    if welcomes == [] then (m, w)
    else
      var r := AddWelcomes(m, w, welcomes[..|welcomes| - 1], deserialize);
      var welcome := welcomes[|welcomes| - 1];
      (r.0[welcome := r.1.next], Register(r.1, RegistrationOf(welcome, deserialize)))
  }

  /** The outer addition loop: a contribution without the flag gets one error
      and nothing registered; the others have all their entries added. */
  function AddContributions<Expr>(m: ContentMap, w: Host<Expr>, added: seq<Contribution>,
                                  deserialize: Option<string> -> Expr): (ContentMap, Host<Expr>)
  {
    if added == [] then (m, w)
    else
      var r := AddContributions(m, w, added[..|added| - 1], deserialize);
      var contribution := added[|added| - 1];
      if !contribution.enableProposedApi then (r.0, ReportProposedApiError(r.1, contribution.extensionId))
      else AddWelcomes(r.0, r.1, contribution.value, deserialize)
  }

  /** One batch `{added, removed}`: all removals, then all additions. */
  function HandleDelta<Expr>(m: ContentMap, w: Host<Expr>, added: seq<Contribution>, removed: seq<Contribution>,
                             deserialize: Option<string> -> Expr): (ContentMap, Host<Expr>)
  {
    AddContributions(m, RemoveContributions(m, w, removed), added, deserialize)
  }
}
