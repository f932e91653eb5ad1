/**
 The procedures prepare_draft_release and publish_verified_release of scripts/release_contract.py
 against the server object of its test double.  Before every request any number of
 requests of other clients may be served, so both lost races (status 422) can occur.  Each
 run is shown to be the run of one client in an interleaving of the protocol's state machine.
 */
module ReleaseClient {
  import opened Optional
  import opened ReleaseProtocol

  /** The server of the test double; requests answer with None where it answers 404 or 422. */
  class ReleaseServer {
    var release: Option<Release>
    var tag: Option<string>
    const nextId: ReleaseId
    const freezes: bool
    var creates: nat
    var uploads: seq<string>
    var patches: nat

    function State(): Server
      reads this
    {
      Server(release, tag, nextId, freezes, creates, uploads, patches)
    }

    constructor (nextId: ReleaseId, freezes: bool)
      ensures State() == Server(None, None, nextId, freezes, 0, [], 0)
    {
      release, tag, creates, uploads, patches := None, None, 0, [], 0;
      this.nextId, this.freezes := nextId, freezes;
    }

    method GetById(id: ReleaseId) returns (r: Option<Release>)
      ensures r == ById(State(), id)
    {
      r := if release.Some? && release.value.id == id then release else None;
    }

    method GetByTag() returns (r: Option<Release>)
      ensures r == ByTag(State())
    {
      r := if release.Some? && !release.value.draft then release else None;
    }

    method Post(meta: Meta) returns (r: Option<Release>)
      modifies this
      ensures State() == Create(old(State()), meta)
      ensures r.None? <==> old(release).Some?
      ensures r.None? ==> State() == old(State())
      ensures r.Some? ==> release == r && r.value == Release(nextId, true, false, false, meta, []) && creates == old(creates) + 1
    {
      if release.Some? {
        return None;
      }
      release := Some(Release(nextId, true, false, false, meta, []));
      creates := creates + 1;
      r := release;
    }

    /** AlreadyExists is status 422, Missing is 404. */
    method UploadAsset(id: ReleaseId, name: string, content: string) returns (answer: UploadAnswer)
      modifies this
      ensures State() == if ById(old(State()), id).Some? then ReleaseProtocol.UploadAsset(old(State()), name, content)
                         else old(State())
      ensures answer == if ById(old(State()), id).None? then Missing
                        else if HasNamed(old(State()), name) then AlreadyExists else Uploaded
      ensures answer != Uploaded ==> State() == old(State())
      ensures answer == Uploaded ==> release.Some? && HasNamed(State(), name) && uploads == old(uploads) + [name]
      ensures answer == Uploaded ==>
        release.value == old(release).value.(assets := old(release).value.assets + [Asset(name, true, content)])
    {
      if release.None? || release.value.id != id {
        return Missing;
      }
      if exists k :: 0 <= k < |release.value.assets| && release.value.assets[k].name == name {
        return AlreadyExists;
      }
      release := Some(release.value.(assets := release.value.assets + [Asset(name, true, content)]));
      uploads := uploads + [name];
      var last := |release.value.assets| - 1;
      assert release.value.assets[last].name == name;
      answer := Uploaded;
    }

    method Patch(id: ReleaseId) returns (r: Option<Release>)
      modifies this
      ensures State() == if ById(old(State()), id).Some? then Publish(old(State())) else old(State())
      ensures r == ById(State(), id)
      ensures r.None? ==> State() == old(State())
      ensures r.Some? ==> !r.value.draft && tag == Some(r.value.meta.target) && r.value.assets == old(release).value.assets
    {
      if release.None? || release.value.id != id {
        return None;
      }
      patches := patches + 1;
      release := Some(release.value.(draft := false, prerelease := false, immutable := freezes));
      tag := Some(release.value.meta.target);
      r := release;
    }

    /** The state after requests of somebody else. */
    method Become(s: Server)
      requires s.nextId == nextId && s.freezes == freezes
      modifies this
      ensures State() == s
    {
      release, tag, creates, uploads, patches := s.release, s.tag, s.creates, s.uploads, s.patches;
    }
  }

  datatype UploadAnswer = Uploaded | AlreadyExists | Missing

  // ---------- a run among other clients ----------

  /** Requests of this client, which is the first one, are answered; those of others may fail. */
  predicate MineAnswered(moves: seq<Move>) {
    forall k :: 0 <= k < |moves| && moves[k].index == 0 ==> moves[k].outcome == Normal
  }

  /** Nothing recorded is ever taken back. */
  predicate Continues(s: Server, s': Server) {
    && s'.nextId == s.nextId && s'.freezes == s.freezes
    && s.creates <= s'.creates && s.patches <= s'.patches && s.uploads <= s'.uploads
  }

  lemma StepContinues(c: Client, s: Server, b: Bundle, o: Outcome)
    ensures Continues(s, After(c, s, b, o))
  {
    hide HasAsset;
  }

  /** The server together with the other clients, and the interleaving so far. */
  class World {
    const server: ReleaseServer
    const b: Bundle
    const role: Role
    var others: seq<Client>
    ghost const start: System
    ghost var moves: seq<Move>

    /** In the interleaving so far the server comes to s and this client to the phase. */
    ghost predicate At(s: Server, phase: Phase)
      reads this
    {
      && |start.clients| == 1 + |others| && start.clients[0] == Client(role, GetTag(false))
      && Run(start, moves, b) == System(s, [Client(role, phase)] + others)
      && MineAnswered(moves)
    }

    ghost predicate Reached(phase: Phase)
      reads this, server
    {
      At(server.State(), phase)
    }

    constructor (server: ReleaseServer, b: Bundle, role: Role, others: seq<Client>)
      ensures this.server == server && this.b == b && this.role == role && this.others == others
      ensures start == System(server.State(), [Client(role, GetTag(false))] + others)
      ensures Reached(GetTag(false))
    {
      this.server, this.b, this.role, this.others := server, b, role, others;
      start := System(server.State(), [Client(role, GetTag(false))] + others);
      moves := [];
    }

    /** Any number of requests of the other clients, with any outcomes. */
    method OthersMove(ghost phase: Phase)
      requires Reached(phase)
      modifies this, server
      ensures Reached(phase) && |others| == |old(others)|
      ensures Continues(old(server.State()), server.State())
      ensures |others| == 0 ==> server.State() == old(server.State())
    {
      hide Run;
      hide After;
      hide Advance;
      var turns: int := *;
      for turn := 0 to if turns < 0 then 0 else turns
        invariant Reached(phase) && |others| == |old(others)|
        invariant Continues(old(server.State()), server.State())
        invariant |others| == 0 ==> server.State() == old(server.State())
      {
        var i: int := *;
        var o: Outcome := *;
        if 0 <= i < |others| {
          var c, s := others[i], server.State();
          StepContinues(c, s, b, o);
          OthersTurn(this, s, phase, i, o);
          moves := moves + [Move(i + 1, o)];
          others := others[i := Advance(c, s, b, o)];
          server.Become(After(c, s, b, o));
        }
      }
    }

    /** This client's next request reaches the server. */
    ghost method Request(phase: Phase)
      requires Reached(phase) && !phase.Done? && !phase.Failed?
      modifies this`moves
      ensures At(Effect(Client(role, phase), server.State(), b), Answered(Client(role, phase), server.State(), b))
    {
      MyTurn(this, server.State(), phase);
      moves := moves + [Move(0, Normal)];
    }
  }

  lemma OneMove(sys: System, m: Move, b: Bundle)
    ensures Run(sys, [m], b) == Next(sys, m, b)
  {
    assert [m][1..] == [];
    assert Run(Next(sys, m, b), [], b) == Next(sys, m, b);
  }

  lemma OthersTurn(w: World, s: Server, phase: Phase, i: nat, o: Outcome)
    requires w.At(s, phase) && i < |w.others|
    ensures var c := w.others[i];
      && Run(w.start, w.moves + [Move(i + 1, o)], w.b)
         == System(After(c, s, w.b, o), [Client(w.role, phase)] + w.others[i := Advance(c, s, w.b, o)])
      && MineAnswered(w.moves + [Move(i + 1, o)])
  {
    hide Run;
    hide After;
    hide Advance;
    var m, sys := Move(i + 1, o), Run(w.start, w.moves, w.b);
    RunConcat(w.start, w.moves, [m], w.b);
    OneMove(sys, m, w.b);
    assert sys.clients[i + 1 := Advance(w.others[i], s, w.b, o)]
        == [Client(w.role, phase)] + w.others[i := Advance(w.others[i], s, w.b, o)];
  }

  lemma MyTurn(w: World, s: Server, phase: Phase)
    requires w.At(s, phase) && !phase.Done? && !phase.Failed?
    ensures var c := Client(w.role, phase);
      && Run(w.start, w.moves + [Move(0, Normal)], w.b)
         == System(Effect(c, s, w.b), [c.(phase := Answered(c, s, w.b))] + w.others)
      && MineAnswered(w.moves + [Move(0, Normal)])
  {
    hide Run;
    hide Effect;
    hide Answered;
    var m, sys, c := Move(0, Normal), Run(w.start, w.moves, w.b), Client(w.role, phase);
    RunConcat(w.start, w.moves, [m], w.b);
    OneMove(sys, m, w.b);
    assert sys.clients[0 := c.(phase := Answered(c, s, w.b))] == [c.(phase := Answered(c, s, w.b))] + w.others;
  }

  /** What a run may leave behind: others only add, and without others nothing is added unseen. */
  twostate predicate Onward(w: World)
    reads w, w.server
  {
    && |w.others| == |old(w.others)|
    && Continues(old(w.server.State()), w.server.State())
  }

  // ---------- the procedures ----------

  datatype ReleaseState = Empty | Draft(id: ReleaseId) | AlreadyPublic(id: ReleaseId) | Rejected

  function Follows(state: ReleaseState, role: Role, raced: bool): Phase {
    match state
    case Empty => AfterEmpty(role, raced)
    case Draft(id) => AfterDraft(role, id)
    case AlreadyPublic(id) => AfterPublished(role, id)
    case Rejected => Failed
  }

  /** Classifies the tag as free, drafted or published; anything else is rejected. */
  method VerifyReleaseState(w: World, ghost raced: bool) returns (state: ReleaseState)
    requires w.Reached(GetTag(raced))
    modifies w, w.server
    ensures w.Reached(Follows(state, w.role, raced)) && Onward(w)
    ensures |w.others| == 0 ==> w.server.State() == old(w.server.State())
  {
    hide w.At;
    hide AfterDraft;
    hide AfterPublished;
    hide AfterEmpty;
    w.OthersMove(GetTag(raced));
    var tag := w.server.tag;
    w.Request(GetTag(raced));
    w.OthersMove(ListReleases(raced, tag));
    var candidates := w.server.release;
    w.Request(ListReleases(raced, tag));
    if tag.None? {
      if candidates.None? {
        return Empty;
      }
      if !ExactDraft(candidates.value, candidates.value.id, w.b) {
        return Rejected;
      }
      return Draft(candidates.value.id);
    }
    if candidates.None? {
      return Rejected;
    }
    state := VerifyPublic(w, candidates.value, tag.value);
  }

  /** A tagged release must read as the exact public one by id and by tag. */
  method VerifyPublic(w: World, candidate: Release, tag: string) returns (state: ReleaseState)
    requires w.Reached(ReadById(candidate, tag))
    modifies w, w.server
    ensures state.AlreadyPublic? || state.Rejected?
    ensures w.Reached(Follows(state, w.role, false)) && Onward(w)
    ensures |w.others| == 0 ==> w.server.State() == old(w.server.State())
  {
    hide w.At;
    hide AfterPublished;
    var id := candidate.id;
    w.OthersMove(ReadById(candidate, tag));
    var byId := w.server.GetById(id);
    w.Request(ReadById(candidate, tag));
    if byId.None? {
      return Rejected;
    }
    w.OthersMove(ReadByTag(candidate, byId.value, tag));
    var byTag := w.server.GetByTag();
    w.Request(ReadByTag(candidate, byId.value, tag));
    if byTag.None? || !ExactPublic(candidate, id, w.b) || !ExactPublic(byId.value, id, w.b)
       || !ExactPublic(byTag.value, id, w.b) || tag != w.b.meta.target {
      return Rejected;
    }
    state := AlreadyPublic(id);
  }

  /** Re-reads every representation of a public release. */
  method VerifyFrozen(w: World, id: ReleaseId, ghost recovered: bool) returns (ok: bool)
    requires w.Reached(FrozenById(id, recovered))
    modifies w, w.server
    ensures w.Reached(if ok then Done(id, recovered) else Failed) && Onward(w)
    ensures |w.others| == 0 ==> w.server.State() == old(w.server.State())
  {
    hide w.At;
    hide ExactPublic;
    hide AssetsComplete;
    w.OthersMove(FrozenById(id, recovered));
    var byId := w.server.GetById(id);
    w.Request(FrozenById(id, recovered));
    if !PublicReads(byId, id, w.b) {
      return false;
    }
    w.OthersMove(FrozenByTag(id, recovered));
    var byTag := w.server.GetByTag();
    w.Request(FrozenByTag(id, recovered));
    if !PublicReads(byTag, id, w.b) {
      return false;
    }
    ok := VerifyFrozenTag(w, id, recovered);
  }

  method VerifyFrozenTag(w: World, id: ReleaseId, ghost recovered: bool) returns (ok: bool)
    requires w.Reached(FrozenTag(id, recovered))
    modifies w, w.server
    ensures w.Reached(if ok then Done(id, recovered) else Failed) && Onward(w)
    ensures |w.others| == 0 ==> w.server.State() == old(w.server.State())
  {
    hide w.At;
    hide AssetsComplete;
    w.OthersMove(FrozenTag(id, recovered));
    var tag := w.server.tag;
    w.Request(FrozenTag(id, recovered));
    if tag != Some(w.b.meta.target) {
      return false;
    }
    w.OthersMove(FrozenAssets(id, recovered));
    var assets := w.server.GetById(id);
    w.Request(FrozenAssets(id, recovered));
    ok := assets.Some? && AssetsComplete(assets.value.assets, w.b);
  }

  /** Reads the draft again, in the given phase. */
  method RereadDraft(w: World, id: ReleaseId, ghost phase: Phase) returns (exact: bool)
    requires w.Reached(phase) && ReadsDraft(phase, id)
    modifies w, w.server
    ensures w.Reached(if exact then AfterReading(phase, w.b) else Failed) && Onward(w)
    ensures |w.others| == 0 ==> w.server.State() == old(w.server.State())
  {
    hide w.At;
    hide ExactDraft;
    w.OthersMove(phase);
    var draft := w.server.GetById(id);
    w.Request(phase);
    exact := draft.Some? && ExactDraft(draft.value, id, w.b);
  }

  ghost predicate ReadsDraft(p: Phase, id: ReleaseId) {
    && (p.ReadDraft? || p.DraftAgain? || p.FinalDraft? || p.FirstDraft? || p.SecondDraft?) && p.id == id
  }

  ghost function AfterReading(p: Phase, b: Bundle): Phase {
    match p
    case ReadDraft(id) => Round(id, 0, b)
    case DraftAgain(id, i) => ListAssets(id, i)
    case FinalDraft(id) => FinalAssets(id)
    case FirstDraft(id) => FirstTag(id)
    case SecondDraft(id) => SecondTag(id)
    case _ => Failed
  }

  /** Checks that the tag is still absent, in the given phase. */
  method AssertTagAbsent(w: World, ghost phase: Phase) returns (absent: bool)
    requires w.Reached(phase) && (phase.TagAbsent? || phase.FinalTag? || phase.FirstTag? || phase.SecondTag?)
    modifies w, w.server
    ensures w.Reached(if absent then AfterTag(phase) else Failed) && Onward(w)
    ensures |w.others| == 0 ==> w.server.State() == old(w.server.State())
  {
    hide w.At;
    w.OthersMove(phase);
    absent := w.server.tag.None?;
    w.Request(phase);
  }

  ghost function AfterTag(p: Phase): Phase {
    match p
    case TagAbsent(id, i) => DraftAgain(id, i)
    case FinalTag(id) => FinalDraft(id)
    case FirstTag(id) => DraftAssets(id)
    case SecondTag(id) => ReleaseProtocol.Patch(id)
    case _ => Failed
  }

  datatype PrepareResult = Prepared(id: ReleaseId, created: bool, uploaded: seq<string>, recovered: bool) | NotPrepared

  /** The draft to work on: found, created here, or created by somebody else at the same time. */
  method FindOrCreateDraft(w: World) returns (state: ReleaseState, created: bool)
    requires w.role == Preparer && w.Reached(GetTag(false))
    modifies w, w.server
    ensures !state.Empty? && w.Reached(Follows(state, Preparer, true)) && Onward(w)
    ensures created ==> state.Draft? && w.server.creates > old(w.server.creates)
    ensures |w.others| == 0 ==> w.server.uploads == old(w.server.uploads) && w.server.patches == old(w.server.patches)
    ensures |w.others| == 0 ==> w.server.creates == old(w.server.creates) + if created then 1 else 0
  {
    hide w.At;
    created := false;
    state := VerifyReleaseState(w, false);
    if !state.Empty? {
      return;
    }
    w.OthersMove(PostDraft);
    w.Request(PostDraft);
    var response := w.server.Post(w.b.meta);
    if response.Some? {
      return Draft(response.value.id), true;
    }
    state := VerifyReleaseState(w, true);
    if state.Empty? {
      state := Rejected;
    }
  }

  /** One round of the upload loop; an upload that loses its race must find the exact bytes. */
  method EnsureAsset(w: World, id: ReleaseId, i: nat) returns (ok: bool, uploaded: bool)
    requires i < |w.b.names| && w.b.names[i] in w.b.files && w.Reached(TagAbsent(id, i))
    modifies w, w.server
    ensures w.Reached(if ok then Round(id, i + 1, w.b) else Failed) && Onward(w)
    ensures uploaded ==> ok && w.b.names[i] in w.server.uploads
    ensures |w.others| == 0 ==> w.server.creates == old(w.server.creates) && w.server.patches == old(w.server.patches)
    ensures |w.others| == 0 ==> w.server.uploads == old(w.server.uploads) + if uploaded then [w.b.names[i]] else []
  {
    hide w.At;
    hide Round;
    hide AssetsMatch;
    hide HasAsset;
    var name := w.b.names[i];
    var absent := AssertTagAbsent(w, TagAbsent(id, i));
    if !absent {
      return false, false;
    }
    var exact := RereadDraft(w, id, DraftAgain(id, i));
    if !exact {
      return false, false;
    }
    w.OthersMove(ListAssets(id, i));
    var current := w.server.GetById(id);
    w.Request(ListAssets(id, i));
    if current.None? || !AssetsMatch(current.value.assets, w.b) {
      return false, false;
    }
    if HasAsset(current.value.assets, name) {
      return true, false;
    }
    ok, uploaded := UploadOrFind(w, id, i);
  }

  method UploadOrFind(w: World, id: ReleaseId, i: nat) returns (ok: bool, uploaded: bool)
    requires i < |w.b.names| && w.b.names[i] in w.b.files && w.Reached(Upload(id, i))
    modifies w, w.server
    ensures w.Reached(if ok then Round(id, i + 1, w.b) else Failed) && Onward(w)
    ensures uploaded ==> ok && w.b.names[i] in w.server.uploads
    ensures |w.others| == 0 ==> w.server.creates == old(w.server.creates) && w.server.patches == old(w.server.patches)
    ensures |w.others| == 0 ==> w.server.uploads == old(w.server.uploads) + if uploaded then [w.b.names[i]] else []
  {
    hide w.At;
    hide Round;
    hide AssetsMatch;
    hide HasAsset;
    var name := w.b.names[i];
    w.OthersMove(Upload(id, i));
    w.Request(Upload(id, i));
    var answer := w.server.UploadAsset(id, name, w.b.files[name]);
    if answer == Uploaded {
      return true, true;
    }
    if answer == Missing {
      return false, false;
    }
    w.OthersMove(RacedAssets(id, i));
    var raced := w.server.GetById(id);
    w.Request(RacedAssets(id, i));
    ok := raced.Some? && AssetsMatch(raced.value.assets, w.b) && HasAsset(raced.value.assets, name);
    uploaded := false;
  }

  /** A run of the preparation among any other clients. */
  method PrepareDraftRelease(w: World) returns (result: PrepareResult)
    requires w.role == Preparer && w.Reached(GetTag(false))
    requires forall i :: 0 <= i < |w.b.names| ==> w.b.names[i] in w.b.files
    modifies w, w.server
    ensures w.Reached(if result.Prepared? then Done(result.id, result.recovered) else Failed) && Onward(w)
    ensures result.Prepared? && result.created ==> w.server.creates > old(w.server.creates)
    ensures result.Prepared? ==> forall name :: name in result.uploaded ==> name in w.server.uploads
    ensures |w.others| == 0 ==> w.server.patches == old(w.server.patches)
    ensures |w.others| == 0 && result.Prepared? ==>
      (result.created <==> w.server.creates == old(w.server.creates) + 1)
    ensures |w.others| == 0 && result.Prepared? ==> w.server.uploads == old(w.server.uploads) + result.uploaded
  {
    hide w.At;
    hide Round;
    hide AssetsComplete;
    var state, created := FindOrCreateDraft(w);
    if state.Rejected? {
      return NotPrepared;
    }
    var id := state.id;
    if state.AlreadyPublic? {
      var frozen := VerifyFrozen(w, id, true);
      return if frozen then Prepared(id, false, [], true) else NotPrepared;
    }
    var exact := RereadDraft(w, id, ReadDraft(id));
    if !exact {
      return NotPrepared;
    }
    var uploaded := UploadAll(w, id);
    if uploaded.None? {
      return NotPrepared;
    }
    var complete := VerifyFinalDraft(w, id);
    result := if complete then Prepared(id, created, uploaded.value, false) else NotPrepared;
  }

  method UploadAll(w: World, id: ReleaseId) returns (uploaded: Option<seq<string>>)
    requires w.Reached(Round(id, 0, w.b))
    requires forall i :: 0 <= i < |w.b.names| ==> w.b.names[i] in w.b.files
    modifies w, w.server
    ensures w.Reached(if uploaded.Some? then FinalTag(id) else Failed) && Onward(w)
    ensures uploaded.Some? ==> forall name :: name in uploaded.value ==> name in w.server.uploads
    ensures |w.others| == 0 ==> w.server.creates == old(w.server.creates) && w.server.patches == old(w.server.patches)
    ensures |w.others| == 0 && uploaded.Some? ==> w.server.uploads == old(w.server.uploads) + uploaded.value
  {
    hide w.At;
    var names: seq<string> := [];
    for i := 0 to |w.b.names|
      invariant w.Reached(Round(id, i, w.b)) && Onward(w)
      invariant forall name :: name in names ==> name in w.server.uploads
      invariant |w.others| == 0 ==> w.server.creates == old(w.server.creates) && w.server.patches == old(w.server.patches)
      invariant |w.others| == 0 ==> w.server.uploads == old(w.server.uploads) + names
    {
      var ok, added := EnsureAsset(w, id, i);
      if !ok {
        return None;
      }
      names := names + if added then [w.b.names[i]] else [];
    }
    uploaded := Some(names);
  }

  method VerifyFinalDraft(w: World, id: ReleaseId) returns (ok: bool)
    requires w.Reached(FinalTag(id))
    modifies w, w.server
    ensures w.Reached(if ok then Done(id, false) else Failed) && Onward(w)
    ensures |w.others| == 0 ==> w.server.State() == old(w.server.State())
  {
    hide w.At;
    hide AssetsComplete;
    var absent := AssertTagAbsent(w, FinalTag(id));
    if !absent {
      return false;
    }
    var exact := RereadDraft(w, id, FinalDraft(id));
    if !exact {
      return false;
    }
    w.OthersMove(FinalAssets(id));
    var assets := w.server.GetById(id);
    w.Request(FinalAssets(id));
    ok := assets.Some? && AssetsComplete(assets.value.assets, w.b);
  }

  /** The checks between the evidence and the PATCH. */
  method VerifyBeforePatch(w: World, id: ReleaseId) returns (ok: bool)
    requires w.Reached(FirstDraft(id))
    modifies w, w.server
    ensures w.Reached(if ok then ReleaseProtocol.Patch(id) else Failed) && Onward(w)
    ensures |w.others| == 0 ==> w.server.State() == old(w.server.State())
  {
    hide w.At;
    ok := VerifyDraftAssets(w, id);
    if !ok {
      return;
    }
    ok := RereadDraft(w, id, SecondDraft(id));
    if !ok {
      return;
    }
    ok := AssertTagAbsent(w, SecondTag(id));
  }

  method VerifyDraftAssets(w: World, id: ReleaseId) returns (ok: bool)
    requires w.Reached(FirstDraft(id))
    modifies w, w.server
    ensures w.Reached(if ok then SecondDraft(id) else Failed) && Onward(w)
    ensures |w.others| == 0 ==> w.server.State() == old(w.server.State())
  {
    hide w.At;
    hide AssetsComplete;
    ok := RereadDraft(w, id, FirstDraft(id));
    if !ok {
      return;
    }
    ok := AssertTagAbsent(w, FirstTag(id));
    if !ok {
      return;
    }
    w.OthersMove(DraftAssets(id));
    var assets := w.server.GetById(id);
    w.Request(DraftAssets(id));
    ok := assets.Some? && AssetsComplete(assets.value.assets, w.b);
  }

  /** A run of the publication.  Without its external evidence it sends no PATCH. */
  method PublishVerifiedRelease(w: World, expected: ReleaseId, evidence: bool) returns (ok: bool, recovered: bool)
    requires w.role == Publisher(expected) && w.Reached(GetTag(false))
    modifies w, w.server
    ensures Onward(w)
    ensures ok ==> w.Reached(Done(expected, recovered))
    ensures evidence && !ok ==> w.Reached(Failed)
    ensures |w.others| == 0 && !evidence ==> w.server.State() == old(w.server.State())
    ensures |w.others| == 0 ==> w.server.creates == old(w.server.creates) && w.server.uploads == old(w.server.uploads)
    ensures |w.others| == 0 && ok ==> w.server.patches == old(w.server.patches) + if recovered then 0 else 1
  {
    hide w.At;
    hide AssetsComplete;
    recovered := false;
    var state := VerifyReleaseState(w, false);
    if state.AlreadyPublic? {
      if state.id != expected {
        return false, false;
      }
      ok := VerifyFrozen(w, expected, true);
      recovered := ok;
      return;
    }
    if !state.Draft? || state.id != expected {
      return false, false;
    }
    if !evidence {
      return false, false;
    }
    w.OthersMove(Evidence(expected));
    w.Request(Evidence(expected));
    ok := VerifyBeforePatch(w, expected);
    if !ok {
      return;
    }
    ok := SendPatch(w, expected);
  }

  method SendPatch(w: World, id: ReleaseId) returns (ok: bool)
    requires w.Reached(ReleaseProtocol.Patch(id))
    modifies w, w.server
    ensures Onward(w) && w.Reached(if ok then Done(id, false) else Failed)
    ensures |w.others| == 0 ==> w.server.creates == old(w.server.creates) && w.server.uploads == old(w.server.uploads)
    ensures |w.others| == 0 && ok ==> w.server.patches == old(w.server.patches) + 1
  {
    hide w.At;
    hide AssetsComplete;
    w.OthersMove(ReleaseProtocol.Patch(id));
    w.Request(ReleaseProtocol.Patch(id));
    var response := w.server.Patch(id);
    if !PublicReads(response, id, w.b) {
      return false;
    }
    ok := VerifyFrozen(w, id, false);
  }

  // ---------- what a run may claim ----------

  /** Whatever the others did, and whatever the server held at the start, a success is true of the server. */
  lemma ClaimsAreTrue(w: World, id: ReleaseId, recovered: bool)
    requires w.Reached(Done(id, recovered)) && WellFormed(w.b) && Fresh(w.start.clients)
    ensures HoldsAll(w.server.State(), id, w.b)
    ensures TrueReport(Client(w.role, Done(id, recovered)), w.server.State(), w.b)
  {
    hide Good;
    hide AssetsComplete;
    hide TrueReport;
    ReportsAreTrue(w.start.server, w.start.clients, w.moves, w.b, 0);
    assert w.start == System(w.start.server, w.start.clients);
  }

  // ---------- the two runs together ----------

  lemma {:induction false} OnlyOneClient(c: Client, s: Server, moves: seq<Move>, b: Bundle) returns (n: nat)
    requires MineAnswered(moves)
    ensures Run(System(s, [c]), moves, b) == Alone(c, s, b, Normals(n))
    decreases |moves|
  {
    hide Advance;
    hide After;
    if |moves| == 0 {
      n := 0;
    } else {
      var next := Next(System(s, [c]), moves[0], b);
      assert |next.clients| == 1 && next.clients == [next.clients[0]];
      n := OnlyOneClient(next.clients[0], next.server, moves[1..], b);
      if moves[0].index == 0 {
        n := n + 1;
        assert Normals(n)[0] == Normal && Normals(n)[1..] == Normals(n - 1);
      }
    }
  }

  lemma {:induction false} AloneSnoc(c: Client, s: Server, b: Bundle, n: nat)
    ensures |Alone(c, s, b, Normals(n)).clients| == 1
    ensures var e := Alone(c, s, b, Normals(n));
      Alone(c, s, b, Normals(n + 1)) == System(After(e.clients[0], e.server, b, Normal),
                                               [Advance(e.clients[0], e.server, b, Normal)])
    decreases n
  {
    hide Advance;
    hide After;
    assert Normals(n + 1)[0] == Normal && Normals(n + 1)[1..] == Normals(n);
    var c', s' := Advance(c, s, b, Normal), After(c, s, b, Normal);
    assert Alone(c, s, b, Normals(n + 1)) == Alone(c', s', b, Normals(n));
    if n > 0 {
      assert Normals(n)[0] == Normal && Normals(n)[1..] == Normals(n - 1);
      AloneSnoc(c', s', b, n - 1);
    }
  }

  /** A finished client stays as it is. */
  lemma {:induction false} FinishedStays(c: Client, s: Server, b: Bundle, n: nat, m: nat)
    requires |Alone(c, s, b, Normals(n)).clients| == 1 && Finished(Alone(c, s, b, Normals(n)).clients[0]) && n <= m
    ensures Alone(c, s, b, Normals(m)) == Alone(c, s, b, Normals(n))
    decreases m
  {
    hide Alone;
    if m > n {
      FinishedStays(c, s, b, n, m - 1);
      AloneSnoc(c, s, b, m - 1);
    }
  }

  lemma FinishedIsDone(w: World, phase: Phase)
    requires w.Reached(phase) && (phase.Done? || phase.Failed?) && |w.others| == 0 && WellFormed(w.b)
    requires Good(w.start.server, w.b) && Recorded(w.start.server)
    requires Willing(Client(w.role, GetTag(false)), w.start.server, w.b)
    ensures var s := w.server.State();
      phase.Done? && Good(s, w.b) && Recorded(s) && Willing(Client(w.role, phase), s, w.b) && Grows(w.start.server, s)
  {
    hide Alone;
    hide Run;
    hide Good;
    hide Willing;
    hide Recorded;
    hide Grows;
    var c, s0 := Client(w.role, GetTag(false)), w.start.server;
    assert w.start == System(s0, [c]);
    var n := OnlyOneClient(c, s0, w.moves, w.b);
    var m := n + Budget(c.phase, w.b);
    FinishedStays(c, s0, w.b, n, m);
    AloneCompletes(c, s0, w.b, m);
  }

  /** However far earlier runs came, a preparation and its publication end in the exact public release. */
  method PrepareAndPublish(server: ReleaseServer, b: Bundle) returns (id: ReleaseId)
    requires WellFormed(b) && Good(server.State(), b) && Recorded(server.State()) && server.freezes
    modifies server
    ensures server.release.Some? && server.release.value.id == id && ExactPublic(server.release.value, id, b)
    ensures AssetsComplete(server.release.value.assets, b) && server.tag == Some(b.meta.target)
    ensures old(server.release).Some? && !old(server.release).value.draft ==> server.release == old(server.release)
  {
    hide AssetsMatch;
    hide AssetsComplete;
    var first := new World(server, b, Preparer, []);
    hide first.At;
    var prepared := PrepareDraftRelease(first);
    FinishedIsDone(first, if prepared.Prepared? then Done(prepared.id, prepared.recovered) else Failed);
    id := prepared.id;
    var second := new World(server, b, Publisher(id), []);
    var ok, recovered := PublishVerifiedRelease(second, id, true);
    FinishedIsDone(second, if ok then Done(id, recovered) else Failed);
  }
}
