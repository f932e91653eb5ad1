module ReleaseProtocol {
  /**
   The draft/publish protocol of scripts/release_contract.py (546-608, 2644-2822, 2825-3034)
   against the server of its own test double (3717-3829).  Every phase of a client is one
   request; requests of different clients interleave freely.
   */

  import opened Optional

  type ReleaseId = n: nat | n > 0 witness 1

  /** Tag, target commit, title and notes of a release. */
  datatype Meta = Meta(tag: string, target: string, title: string, notes: string)

  /** Size and SHA-256 digest stand for the content itself. */
  datatype Asset = Asset(name: string, uploaded: bool, content: string)

  datatype Release = Release(id: ReleaseId, draft: bool, prerelease: bool, immutable: bool, meta: Meta,
                             assets: seq<Asset>)

  /** The verified local bundle: what is to be released, its files and their sorted names. */
  datatype Bundle = Bundle(meta: Meta, files: map<string, string>, names: seq<string>)

  ghost predicate WellFormed(b: Bundle) {
    forall name :: name in b.files <==> name in b.names
  }

  // ---------- the server ----------

  /**
   The release claiming the tag, the commit the tag points to, whether publication freezes a
   release, and a record of the mutations that succeeded.
   */
  datatype Server = Server(release: Option<Release>, tag: Option<string>, nextId: ReleaseId, freezes: bool,
                           creates: nat, uploads: seq<string>, patches: nat)

  predicate HasAsset(assets: seq<Asset>, name: string) {
    exists k :: 0 <= k < |assets| && assets[k].name == name
  }

  /** POST: refused with status 422 when there is a release already. */
  function Create(s: Server, meta: Meta): Server {
    if s.release.Some? then s
    else s.(release := Some(Release(s.nextId, true, false, false, meta, [])), creates := s.creates + 1)
  }

  /** Upload: refused with status 422 when the name is taken. */
  function UploadAsset(s: Server, name: string, content: string): Server {
    if s.release.None? || HasAsset(s.release.value.assets, name) then s
    else var r := s.release.value;
      s.(release := Some(r.(assets := r.assets + [Asset(name, true, content)])), uploads := s.uploads + [name])
  }

  /** PATCH: publishes the release and creates its tag. */
  function Publish(s: Server): Server {
    if s.release.None? then s
    else var r := s.release.value;
      s.(release := Some(r.(draft := false, prerelease := false, immutable := s.freezes)),
         tag := Some(r.meta.target), patches := s.patches + 1)
  }

  // ---------- what the clients check ----------

  predicate ExactDraft(r: Release, id: ReleaseId, b: Bundle) {
    r.id == id && r.draft && !r.prerelease && !r.immutable && r.meta == b.meta
  }

  predicate ExactPublic(r: Release, id: ReleaseId, b: Bundle) {
    r.id == id && !r.draft && !r.prerelease && r.immutable && r.meta == b.meta
  }

  /** No duplicate, nothing unexpected, and exactly the local bytes. */
  predicate AssetsMatch(assets: seq<Asset>, b: Bundle) {
    && (forall i, j :: 0 <= i < j < |assets| ==> assets[i].name != assets[j].name)
    && (forall i :: 0 <= i < |assets| ==>
          assets[i].uploaded && assets[i].name in b.files && assets[i].content == b.files[assets[i].name])
  }

  predicate AssetsComplete(assets: seq<Asset>, b: Bundle) {
    AssetsMatch(assets, b) && forall name :: name in b.files ==> HasAsset(assets, name)
  }

  // ---------- the clients ----------

  datatype Role = Preparer | Publisher(expected: ReleaseId)

  /** The request a client issues next. */
  datatype Phase =
    | GetTag(raced: bool)
    | ListReleases(raced: bool, observed: Option<string>)
    | ReadById(candidate: Release, tag: string)
    | ReadByTag(candidate: Release, byId: Release, tag: string)
    | PostDraft
    | ReadDraft(id: ReleaseId)
    | TagAbsent(id: ReleaseId, i: nat)
    | DraftAgain(id: ReleaseId, i: nat)
    | ListAssets(id: ReleaseId, i: nat)
    | Upload(id: ReleaseId, i: nat)
    | RacedAssets(id: ReleaseId, i: nat)
    | FinalTag(id: ReleaseId)
    | FinalDraft(id: ReleaseId)
    | FinalAssets(id: ReleaseId)
    | Evidence(id: ReleaseId)
    | FirstDraft(id: ReleaseId)
    | FirstTag(id: ReleaseId)
    | DraftAssets(id: ReleaseId)
    | SecondDraft(id: ReleaseId)
    | SecondTag(id: ReleaseId)
    | Patch(id: ReleaseId)
    | FrozenById(id: ReleaseId, recovered: bool)
    | FrozenByTag(id: ReleaseId, recovered: bool)
    | FrozenTag(id: ReleaseId, recovered: bool)
    | FrozenAssets(id: ReleaseId, recovered: bool)
    | Done(id: ReleaseId, recovered: bool)
    | Failed

  datatype Client = Client(role: Role, phase: Phase)

  predicate Finished(c: Client) {
    c.phase.Done? || c.phase.Failed?
  }

  function ById(s: Server, id: ReleaseId): Option<Release> {
    if s.release.Some? && s.release.value.id == id then s.release else None
  }

  function ByTag(s: Server): Option<Release> {
    if s.release.Some? && !s.release.value.draft then s.release else None
  }

  /** The start of round i of the upload loop. */
  function Round(id: ReleaseId, i: nat, b: Bundle): Phase {
    if i < |b.names| then TagAbsent(id, i) else FinalTag(id)
  }

  /** What follows once the tag has been classified as free, drafted or published. */
  function AfterEmpty(role: Role, raced: bool): Phase {
    if role.Preparer? && !raced then PostDraft else Failed
  }

  function AfterDraft(role: Role, id: ReleaseId): Phase {
    match role
    case Preparer => ReadDraft(id)
    case Publisher(expected) => if id == expected then Evidence(id) else Failed
  }

  function AfterPublished(role: Role, id: ReleaseId): Phase {
    if role.Publisher? && role.expected != id then Failed else FrozenById(id, true)
  }

  function If(condition: bool, phase: Phase): Phase {
    if condition then phase else Failed
  }

  /** The phase after the request of c has been answered in state s. */
  function Answered(c: Client, s: Server, b: Bundle): Phase {
    match c.phase
    case GetTag(raced) => ListReleases(raced, s.tag)
    case ListReleases(raced, None) =>
      if s.release.None? then AfterEmpty(c.role, raced)
      else If(ExactDraft(s.release.value, s.release.value.id, b), AfterDraft(c.role, s.release.value.id))
    case ListReleases(raced, Some(tag)) =>
      if s.release.None? then Failed else ReadById(s.release.value, tag)
    case ReadById(candidate, tag) =>
      var found := ById(s, candidate.id);
      if found.None? then Failed else ReadByTag(candidate, found.value, tag)
    case ReadByTag(candidate, byId, tag) =>
      var found, id := ByTag(s), candidate.id;
      if found.None? then Failed
      else If(ExactPublic(candidate, id, b) && ExactPublic(byId, id, b) && ExactPublic(found.value, id, b)
              && tag == b.meta.target, AfterPublished(c.role, id))
    case PostDraft =>
      if s.release.Some? then GetTag(true) else ReadDraft(s.nextId)
    case ReadDraft(id) => If(DraftReads(s, id, b), Round(id, 0, b))
    case TagAbsent(id, i) => If(s.tag.None?, DraftAgain(id, i))
    case DraftAgain(id, i) => If(DraftReads(s, id, b), ListAssets(id, i))
    case ListAssets(id, i) =>
      If(AssetsRead(s, id, b) && i < |b.names|,
         if i < |b.names| && HasNamed(s, b.names[i]) then Round(id, i + 1, b) else Upload(id, i))
    case Upload(id, i) =>
      If(ById(s, id).Some? && i < |b.names|,
         if i < |b.names| && HasNamed(s, b.names[i]) then RacedAssets(id, i) else Round(id, i + 1, b))
    case RacedAssets(id, i) =>
      If(AssetsRead(s, id, b) && i < |b.names| && HasNamed(s, b.names[i]), Round(id, i + 1, b))
    case FinalTag(id) => If(s.tag.None?, FinalDraft(id))
    case FinalDraft(id) => If(DraftReads(s, id, b), FinalAssets(id))
    case FinalAssets(id) => If(CompleteRead(s, id, b), Done(id, false))
    case Evidence(id) => FirstDraft(id)
    case FirstDraft(id) => If(DraftReads(s, id, b), FirstTag(id))
    case FirstTag(id) => If(s.tag.None?, DraftAssets(id))
    case DraftAssets(id) => If(CompleteRead(s, id, b), SecondDraft(id))
    case SecondDraft(id) => If(DraftReads(s, id, b), SecondTag(id))
    case SecondTag(id) => If(s.tag.None?, Patch(id))
    case Patch(id) =>
      If(ById(s, id).Some? && PublicReads(ById(Publish(s), id), id, b), FrozenById(id, false))
    case FrozenById(id, recovered) => If(PublicReads(ById(s, id), id, b), FrozenByTag(id, recovered))
    case FrozenByTag(id, recovered) => If(PublicReads(ByTag(s), id, b), FrozenTag(id, recovered))
    case FrozenTag(id, recovered) => If(s.tag == Some(b.meta.target), FrozenAssets(id, recovered))
    case FrozenAssets(id, recovered) => If(CompleteRead(s, id, b), Done(id, recovered))
    case Done(_, _) => c.phase
    case Failed => c.phase
  }

  predicate DraftReads(s: Server, id: ReleaseId, b: Bundle) {
    ById(s, id).Some? && ExactDraft(ById(s, id).value, id, b)
  }

  predicate AssetsRead(s: Server, id: ReleaseId, b: Bundle) {
    ById(s, id).Some? && AssetsMatch(ById(s, id).value.assets, b)
  }

  predicate CompleteRead(s: Server, id: ReleaseId, b: Bundle) {
    ById(s, id).Some? && AssetsComplete(ById(s, id).value.assets, b)
  }

  predicate PublicReads(r: Option<Release>, id: ReleaseId, b: Bundle) {
    r.Some? && ExactPublic(r.value, id, b) && AssetsComplete(r.value.assets, b)
  }

  predicate HasNamed(s: Server, name: string) {
    s.release.Some? && HasAsset(s.release.value.assets, name)
  }

  /** The server after the request of c has been carried out. */
  function Effect(c: Client, s: Server, b: Bundle): Server {
    match c.phase
    case PostDraft => Create(s, b.meta)
    case Upload(id, i) =>
      if ById(s, id).Some? && i < |b.names| && b.names[i] in b.files
      then UploadAsset(s, b.names[i], b.files[b.names[i]]) else s
    case Patch(id) => if ById(s, id).Some? then Publish(s) else s
    case _ => s
  }

  /** A request may be answered, fail without effect, or take effect with its answer lost. */
  datatype Outcome = Normal | Refused | Lost

  function Advance(c: Client, s: Server, b: Bundle, o: Outcome): Client {
    if Finished(c) then c else if o.Normal? then c.(phase := Answered(c, s, b)) else c.(phase := Failed)
  }

  function After(c: Client, s: Server, b: Bundle, o: Outcome): Server {
    if Finished(c) || o.Refused? then s else Effect(c, s, b)
  }

  // ---------- what a server state may be ----------

  /** Free, an exact draft with some of the assets, or the exact public release with all of them. */
  ghost predicate Good(s: Server, b: Bundle) {
    if s.release.None? then s.tag.None?
    else
      var r := s.release.value;
      && r.meta == b.meta && !r.prerelease && AssetsMatch(r.assets, b)
      && (r.draft ==> !r.immutable && s.tag.None?)
      && (!r.draft ==> r.immutable == s.freezes && s.tag == Some(b.meta.target) && AssetsComplete(r.assets, b))
  }

  /** The record of mutations agrees with the state; a draft has never been published. */
  ghost predicate Recorded(s: Server) {
    && s.creates == (if s.release.Some? then 1 else 0)
    && (s.release.None? ==> s.uploads == [])
    && (s.release.Some? ==> NamesOf(s.release.value.assets) == s.uploads)
    && (s.patches == 0 <==> (s.release.None? || s.release.value.draft))
  }

  function NamesOf(assets: seq<Asset>): (r: seq<string>)
    ensures |r| == |assets|
  {
    seq(|assets|, i requires 0 <= i < |assets| => assets[i].name)
  }

  /** Nothing a server holds is ever taken back. */
  ghost predicate Grows(s: Server, s': Server) {
    && s'.freezes == s.freezes
    && (s.tag.Some? ==> s'.tag == s.tag)
    && (s.release.Some? ==>
          && s'.release.Some?
          && s'.release.value.id == s.release.value.id && s'.release.value.meta == s.release.value.meta
          && s.release.value.assets <= s'.release.value.assets
          && (!s.release.value.draft ==> s'.release == s.release))
  }

  ghost predicate Public(s: Server) {
    s.release.Some? && !s.release.value.draft
  }

  ghost predicate Holds(s: Server, id: ReleaseId) {
    s.release.Some? && s.release.value.id == id
  }

  ghost predicate HoldsAll(s: Server, id: ReleaseId, b: Bundle) {
    Holds(s, id) && AssetsComplete(s.release.value.assets, b)
  }

  ghost predicate HoldsFirst(s: Server, id: ReleaseId, i: nat, b: Bundle) {
    Holds(s, id) && i <= |b.names| && forall k :: 0 <= k < i ==> HasAsset(s.release.value.assets, b.names[k])
  }

  predicate OfPublisher(p: Phase) {
    p.Evidence? || p.FirstDraft? || p.FirstTag? || p.DraftAssets? || p.SecondDraft? || p.SecondTag? || p.Patch?
  }

  predicate OfPreparer(p: Phase) {
    || p.PostDraft? || p.ReadDraft? || p.TagAbsent? || p.DraftAgain? || p.ListAssets? || p.Upload? || p.RacedAssets?
    || p.FinalTag? || p.FinalDraft? || p.FinalAssets?
  }

  predicate OfReport(p: Phase) {
    p.FrozenById? || p.FrozenByTag? || p.FrozenTag? || p.FrozenAssets? || p.Done?
  }

  predicate RoleFits(c: Client) {
    && (OfPublisher(c.phase) ==> c.role == Publisher(c.phase.id)) && (OfPreparer(c.phase) ==> c.role.Preparer?)
    && (OfReport(c.phase) && c.role.Publisher? ==> c.role.expected == c.phase.id)
  }

  /** What a client may rely on, whatever the others have done in the meantime. */
  ghost predicate Knows(c: Client, s: Server, b: Bundle) {
    RoleFits(c) &&
    match c.phase
    case GetTag(raced) => true
    case ListReleases(raced, tag) => tag.Some? ==> s.tag == tag
    case ReadById(candidate, tag) => s.tag == Some(tag) && s.release == Some(candidate)
    case ReadByTag(candidate, byId, tag) => s.tag == Some(tag) && s.release == Some(candidate) && byId == candidate
    case PostDraft => true
    case ReadDraft(id) => Holds(s, id)
    case TagAbsent(id, i) => HoldsFirst(s, id, i, b)
    case DraftAgain(id, i) => HoldsFirst(s, id, i, b)
    case ListAssets(id, i) => HoldsFirst(s, id, i, b)
    case Upload(id, i) => HoldsFirst(s, id, i, b)
    case RacedAssets(id, i) => HoldsFirst(s, id, i, b) && i < |b.names| && HasNamed(s, b.names[i])
    case FinalTag(id) => HoldsAll(s, id, b)
    case FinalDraft(id) => HoldsAll(s, id, b)
    case FinalAssets(id) => HoldsAll(s, id, b)
    case Evidence(id) => Holds(s, id)
    case FirstDraft(id) => Holds(s, id)
    case FirstTag(id) => Holds(s, id)
    case DraftAssets(id) => Holds(s, id)
    case SecondDraft(id) => HoldsAll(s, id, b)
    case SecondTag(id) => HoldsAll(s, id, b)
    case Patch(id) => HoldsAll(s, id, b)
    case FrozenById(id, recovered) => Public(s) && Holds(s, id)
    case FrozenByTag(id, recovered) => Public(s) && Holds(s, id) && s.freezes
    case FrozenTag(id, recovered) => Public(s) && Holds(s, id) && s.freezes
    case FrozenAssets(id, recovered) => Public(s) && Holds(s, id) && s.freezes
    case Done(id, recovered) => HoldsAll(s, id, b) && ((recovered || c.role.Publisher?) ==> Public(s) && s.freezes)
    case Failed => true
  }

  lemma RoundKnows(role: Role, s: Server, b: Bundle, id: ReleaseId, i: nat)
    requires role.Preparer? && WellFormed(b) && HoldsFirst(s, id, i, b) && AssetsMatch(s.release.value.assets, b)
    ensures Knows(Client(role, Round(id, i, b)), s, b)
  {
    if i == |b.names| {
      forall name | name in b.files ensures HasAsset(s.release.value.assets, name) {
        assert name in b.names;
      }
    }
  }

  lemma HasGrows(assets: seq<Asset>, more: seq<Asset>, name: string)
    requires assets <= more && HasAsset(assets, name)
    ensures HasAsset(more, name)
  {
    var k :| 0 <= k < |assets| && assets[k].name == name;
    assert more[k] == assets[k];
  }

  lemma CompleteGrows(assets: seq<Asset>, more: seq<Asset>, b: Bundle)
    requires assets <= more && AssetsComplete(assets, b) && AssetsMatch(more, b)
    ensures AssetsComplete(more, b)
  {
    forall name | name in b.files ensures HasAsset(more, name) {
      HasGrows(assets, more, name);
    }
  }

  /** What a client knows stays true while the others go on. */
  lemma KnowsStable(c: Client, s: Server, s': Server, b: Bundle)
    requires Knows(c, s, b) && Grows(s, s') && Good(s, b) && Good(s', b)
    ensures Knows(c, s', b)
  {
    hide AssetsMatch;
    hide AssetsComplete;
    hide HasAsset;
    if s.release.Some? {
      var assets, more := s.release.value.assets, s'.release.value.assets;
      forall name | HasAsset(assets, name) ensures HasAsset(more, name) {
        HasGrows(assets, more, name);
      }
      if AssetsComplete(assets, b) {
        CompleteGrows(assets, more, b);
      }
    }
  }

  lemma AddKeepsMatch(assets: seq<Asset>, name: string, b: Bundle)
    requires AssetsMatch(assets, b) && name in b.files && !HasAsset(assets, name)
    ensures AssetsMatch(assets + [Asset(name, true, b.files[name])], b)
    ensures HasAsset(assets + [Asset(name, true, b.files[name])], name)
    ensures NamesOf(assets + [Asset(name, true, b.files[name])]) == NamesOf(assets) + [name]
  {
    var more := assets + [Asset(name, true, b.files[name])];
    assert more[|assets|].name == name;
    forall i | 0 <= i < |assets| ensures more[i] == assets[i] && more[i].name != name {}
  }

  /** Every effect of every client keeps the server good and takes nothing back. */
  lemma EffectKeepsGood(c: Client, s: Server, b: Bundle)
    requires WellFormed(b) && Good(s, b) && Knows(c, s, b)
    ensures Good(Effect(c, s, b), b) && Grows(s, Effect(c, s, b)) && (Recorded(s) ==> Recorded(Effect(c, s, b)))
  {
    hide AssetsMatch;
    hide HasAsset;
    match c.phase
    case PostDraft =>
      EmptyMatches(b);
    case Upload(id, i) =>
      if i < |b.names| && s.release.Some? {
        var name := b.names[i];
        assert name in b.files;
        if !HasAsset(s.release.value.assets, name) {
          AddKeepsMatch(s.release.value.assets, name, b);
        }
      }
    case _ =>
  }

  lemma EmptyMatches(b: Bundle)
    ensures AssetsMatch([], b) && NamesOf([]) == []
  {
  }

  lemma StepKeepsGood(c: Client, s: Server, b: Bundle, o: Outcome)
    requires WellFormed(b) && Good(s, b) && Knows(c, s, b)
    ensures Good(After(c, s, b, o), b) && Grows(s, After(c, s, b, o)) && (Recorded(s) ==> Recorded(After(c, s, b, o)))
  {
    hide Good;
    hide Knows;
    hide Effect;
    hide Recorded;
    EffectKeepsGood(c, s, b);
    GrowsRefl(s);
  }

  lemma GrowsRefl(s: Server)
    ensures Grows(s, s)
  {
  }

  lemma GrowsTrans(s: Server, t: Server, u: Server)
    requires Grows(s, t) && Grows(t, u)
    ensures Grows(s, u)
  {
  }

  /** Holding names[..i] and names[i] is holding names[..i + 1]. */
  lemma NextRound(role: Role, s: Server, b: Bundle, id: ReleaseId, i: nat)
    requires role.Preparer? && WellFormed(b) && HoldsFirst(s, id, i, b) && i < |b.names| && HasNamed(s, b.names[i])
    requires AssetsMatch(s.release.value.assets, b)
    ensures Knows(Client(role, Round(id, i + 1, b)), s, b)
  {
    hide HasAsset;
    RoundKnows(role, s, b, id, i + 1);
  }

  lemma UploadKnows(role: Role, s: Server, b: Bundle, id: ReleaseId, i: nat)
    requires role.Preparer? && WellFormed(b) && Good(s, b) && HoldsFirst(s, id, i, b)
    requires i < |b.names| && !HasNamed(s, b.names[i])
    ensures var s' := UploadAsset(s, b.names[i], b.files[b.names[i]]);
      Knows(Client(role, Round(id, i + 1, b)), s', b)
  {
    hide AssetsMatch;
    var name := b.names[i];
    var s' := UploadAsset(s, name, b.files[name]);
    var assets, more := s.release.value.assets, s'.release.value.assets;
    AddKeepsMatch(assets, name, b);
    forall k | 0 <= k < i ensures HasAsset(more, b.names[k]) {
      HasGrows(assets, more, b.names[k]);
    }
    NextRound(role, s', b, id, i);
  }

  lemma AnswerKnows(c: Client, s: Server, b: Bundle)
    requires WellFormed(b) && Good(s, b) && Knows(c, s, b) && !Finished(c)
    ensures Knows(c.(phase := Answered(c, s, b)), Effect(c, s, b), b)
  {
    if OfPreparer(c.phase) {
      PreparerKnows(c, s, b);
    } else {
      OthersKnow(c, s, b);
    }
  }

  lemma PreparerKnows(c: Client, s: Server, b: Bundle)
    requires WellFormed(b) && Good(s, b) && Knows(c, s, b) && OfPreparer(c.phase)
    ensures Knows(c.(phase := Answered(c, s, b)), Effect(c, s, b), b)
  {
    hide AssetsMatch;
    hide HasAsset;
    match c.phase
    case ReadDraft(id) =>
      RoundKnows(c.role, s, b, id, 0);
    case ListAssets(id, i) =>
      if i < |b.names| && HasNamed(s, b.names[i]) { NextRound(c.role, s, b, id, i); }
    case Upload(id, i) =>
      if i < |b.names| && !HasNamed(s, b.names[i]) { UploadKnows(c.role, s, b, id, i); }
    case RacedAssets(id, i) =>
      NextRound(c.role, s, b, id, i);
    case _ =>
  }

  lemma OthersKnow(c: Client, s: Server, b: Bundle)
    requires Good(s, b) && Knows(c, s, b) && !Finished(c) && !OfPreparer(c.phase)
    ensures Knows(c.(phase := Answered(c, s, b)), Effect(c, s, b), b)
  {
    hide AssetsMatch;
    hide HasAsset;
    hide HoldsFirst;
    hide WellFormed;
  }

  // ---------- any number of clients, any interleaving ----------

  datatype System = System(server: Server, clients: seq<Client>)

  /** Client `index` is served, with the given outcome. */
  datatype Move = Move(index: nat, outcome: Outcome)

  function Next(sys: System, m: Move, b: Bundle): System {
    if m.index >= |sys.clients| then sys
    else var c := sys.clients[m.index];
      System(After(c, sys.server, b, m.outcome), sys.clients[m.index := Advance(c, sys.server, b, m.outcome)])
  }

  function Run(sys: System, moves: seq<Move>, b: Bundle): (end: System)
    ensures |end.clients| == |sys.clients|
    decreases |moves|
  {
    if |moves| == 0 then sys else Run(Next(sys, moves[0], b), moves[1..], b)
  }

  lemma {:induction false} RunConcat(sys: System, a: seq<Move>, c: seq<Move>, b: Bundle)
    ensures Run(sys, a + c, b) == Run(Run(sys, a, b), c, b)
    decreases |a|
  {
    hide Next;
    if |a| == 0 {
      assert a + c == c;
    } else {
      assert (a + c)[1..] == a[1..] + c;
      RunConcat(Next(sys, a[0], b), a[1..], c, b);
    }
  }

  ghost predicate SystemOk(sys: System, b: Bundle) {
    && Good(sys.server, b)
    && forall i :: 0 <= i < |sys.clients| ==> Knows(sys.clients[i], sys.server, b)
  }

  predicate Fresh(clients: seq<Client>) {
    forall i :: 0 <= i < |clients| ==> clients[i].phase == GetTag(false)
  }

  lemma MoveKeepsOk(sys: System, m: Move, b: Bundle)
    requires WellFormed(b) && SystemOk(sys, b)
    ensures SystemOk(Next(sys, m, b), b) && Grows(sys.server, Next(sys, m, b).server)
    ensures Recorded(sys.server) ==> Recorded(Next(sys, m, b).server)
  {
    hide Good;
    hide Knows;
    hide Effect;
    hide Answered;
    hide Grows;
    hide Recorded;
    var s, next := sys.server, Next(sys, m, b);
    GrowsRefl(s);
    if m.index < |sys.clients| {
      var c := sys.clients[m.index];
      StepKeepsGood(c, s, b, m.outcome);
      forall i | 0 <= i < |next.clients| ensures Knows(next.clients[i], next.server, b) {
        if i != m.index {
          KnowsStable(sys.clients[i], s, next.server, b);
        } else if m.outcome.Normal? && !Finished(c) {
          AnswerKnows(c, s, b);
        } else {
          StoppedKnows(c, s, next.server, b);
        }
      }
    }
  }

  lemma StoppedKnows(c: Client, s: Server, s': Server, b: Bundle)
    requires Knows(c, s, b) && Grows(s, s') && Good(s, b) && Good(s', b)
    ensures Knows(c, s', b) && Knows(c.(phase := Failed), s', b)
  {
    hide Good;
    hide Grows;
    KnowsStable(c, s, s', b);
  }

  lemma {:induction false} RunKeepsOk(sys: System, moves: seq<Move>, b: Bundle)
    requires WellFormed(b) && SystemOk(sys, b)
    ensures SystemOk(Run(sys, moves, b), b) && Grows(sys.server, Run(sys, moves, b).server)
    ensures Recorded(sys.server) ==> Recorded(Run(sys, moves, b).server)
    decreases |moves|
  {
    hide SystemOk;
    hide Next;
    hide Grows;
    hide Recorded;
    GrowsRefl(sys.server);
    if |moves| > 0 {
      var next := Next(sys, moves[0], b);
      MoveKeepsOk(sys, moves[0], b);
      RunKeepsOk(next, moves[1..], b);
      GrowsTrans(sys.server, next.server, Run(sys, moves, b).server);
    }
  }

  /**
   Safety over every interleaving: at most one release is created and no asset is uploaded
   twice; assets only grow and match the local bytes; a public release has exactly the
   local asset set.
   */
  lemma EveryInterleaving(s: Server, clients: seq<Client>, moves: seq<Move>, b: Bundle)
    requires WellFormed(b) && Good(s, b) && Recorded(s) && Fresh(clients)
    ensures var t := Run(System(s, clients), moves, b).server;
      && t.creates <= 1
      && (forall i, j :: 0 <= i < j < |t.uploads| ==> t.uploads[i] != t.uploads[j])
      && Grows(s, t)
      && (t.release.Some? ==> t.release.value.meta == b.meta && AssetsMatch(t.release.value.assets, b))
      && (Public(t) ==> AssetsComplete(t.release.value.assets, b) && t.tag == Some(b.meta.target))
      && (t.tag.Some? ==> Public(t))
  {
    RunKeepsOk(System(s, clients), moves, b);
    var t := Run(System(s, clients), moves, b).server;
    if t.release.Some? {
      assert forall i :: 0 <= i < |t.uploads| ==> t.uploads[i] == t.release.value.assets[i].name;
    }
  }

  // ---------- foreign states and clients running alone ----------

  ghost predicate Drafted(s: Server, id: ReleaseId, b: Bundle) {
    s.tag.None? && DraftReads(s, id, b)
  }

  ghost predicate Published(s: Server, id: ReleaseId, b: Bundle) {
    s.tag == Some(b.meta.target) && Holds(s, id) && ExactPublic(s.release.value, id, b)
  }

  /** Everything the client has read is still so. */
  ghost predicate UpToDate(c: Client, s: Server, b: Bundle) {
    RoleFits(c) &&
    match c.phase
    case GetTag(raced) => raced ==> s.release.Some?
    case ListReleases(raced, observed) => s.tag == observed && (raced ==> s.release.Some?)
    case ReadById(candidate, tag) => s.tag == Some(tag) && s.release == Some(candidate)
    case ReadByTag(candidate, byId, tag) => s.tag == Some(tag) && s.release == Some(candidate) && byId == candidate
    case PostDraft => s.tag.None? && s.release.None?
    case ReadDraft(id) => Drafted(s, id, b)
    case TagAbsent(id, i) => Drafted(s, id, b) && HoldsFirst(s, id, i, b) && i < |b.names|
    case DraftAgain(id, i) => Drafted(s, id, b) && HoldsFirst(s, id, i, b) && i < |b.names|
    case ListAssets(id, i) => Drafted(s, id, b) && HoldsFirst(s, id, i, b) && i < |b.names|
    case Upload(id, i) =>
      && Drafted(s, id, b) && HoldsFirst(s, id, i, b) && AssetsRead(s, id, b)
      && i < |b.names| && !HasNamed(s, b.names[i])
    case RacedAssets(id, i) => s.release.None?
    case FinalTag(id) => Drafted(s, id, b) && HoldsFirst(s, id, |b.names|, b)
    case FinalDraft(id) => Drafted(s, id, b) && HoldsFirst(s, id, |b.names|, b)
    case FinalAssets(id) => Drafted(s, id, b) && HoldsFirst(s, id, |b.names|, b)
    case Evidence(id) => Drafted(s, id, b)
    case FirstDraft(id) => Drafted(s, id, b)
    case FirstTag(id) => Drafted(s, id, b)
    case DraftAssets(id) => Drafted(s, id, b)
    case SecondDraft(id) => Drafted(s, id, b) && CompleteRead(s, id, b)
    case SecondTag(id) => Drafted(s, id, b) && CompleteRead(s, id, b)
    case Patch(id) => Drafted(s, id, b) && CompleteRead(s, id, b)
    case FrozenById(id, recovered) => Published(s, id, b)
    case FrozenByTag(id, recovered) => Published(s, id, b)
    case FrozenTag(id, recovered) => Published(s, id, b)
    case FrozenAssets(id, recovered) => Published(s, id, b)
    case Done(id, recovered) =>
      && CompleteRead(s, id, b)
      && (Published(s, id, b) || (Drafted(s, id, b) && !recovered && c.role.Preparer?))
    case Failed => true
  }

  /** A client whose reads are up to date mutates nothing but a good server. */
  lemma OnlyGoodIsMutated(c: Client, s: Server, b: Bundle, o: Outcome)
    requires UpToDate(c, s, b) && After(c, s, b, o) != s
    ensures Good(s, b) && !Public(s)
  {
    hide AssetsMatch;
    hide HasAsset;
  }

  lemma UploadUpToDate(role: Role, s: Server, b: Bundle, id: ReleaseId, i: nat)
    requires role.Preparer? && WellFormed(b) && UpToDate(Client(role, Upload(id, i)), s, b)
    ensures var s' := UploadAsset(s, b.names[i], b.files[b.names[i]]);
      UpToDate(Client(role, Round(id, i + 1, b)), s', b)
  {
    var name := b.names[i];
    assert name in b.files;
    var s' := UploadAsset(s, name, b.files[name]);
    var assets, more := s.release.value.assets, s'.release.value.assets;
    AddKeepsMatch(assets, name, b);
    hide AssetsMatch;
    forall k | 0 <= k < i ensures HasAsset(more, b.names[k]) {
      HasGrows(assets, more, b.names[k]);
    }
  }

  lemma AnswerUpToDate(c: Client, s: Server, b: Bundle)
    requires WellFormed(b) && UpToDate(c, s, b) && !Finished(c)
    ensures UpToDate(c.(phase := Answered(c, s, b)), Effect(c, s, b), b)
  {
    if OfPreparer(c.phase) {
      PreparerUpToDate(c, s, b);
    } else {
      OthersUpToDate(c, s, b);
    }
  }

  lemma PreparerUpToDate(c: Client, s: Server, b: Bundle)
    requires WellFormed(b) && UpToDate(c, s, b) && OfPreparer(c.phase)
    ensures UpToDate(c.(phase := Answered(c, s, b)), Effect(c, s, b), b)
  {
    hide AssetsMatch;
    hide HasAsset;
    match c.phase
    case Upload(id, i) =>
      UploadUpToDate(c.role, s, b, id, i);
    case _ =>
  }

  lemma OthersUpToDate(c: Client, s: Server, b: Bundle)
    requires UpToDate(c, s, b) && !Finished(c) && !OfPreparer(c.phase)
    ensures UpToDate(c.(phase := Answered(c, s, b)), Effect(c, s, b), b)
  {
    hide AssetsMatch;
    hide HasAsset;
    hide HoldsFirst;
    hide WellFormed;
  }

  /** A server in any other state is left exactly as it is, by every interleaving. */
  lemma {:induction false} ForeignStateUntouched(sys: System, moves: seq<Move>, b: Bundle)
    requires WellFormed(b) && !Good(sys.server, b)
    requires forall i :: 0 <= i < |sys.clients| ==> UpToDate(sys.clients[i], sys.server, b)
    ensures Run(sys, moves, b).server == sys.server
    ensures forall i :: 0 <= i < |sys.clients| ==> UpToDate(Run(sys, moves, b).clients[i], sys.server, b)
    decreases |moves|
  {
    hide UpToDate;
    hide Good;
    hide Answered;
    hide Effect;
    if |moves| > 0 {
      var m, next := moves[0], Next(sys, moves[0], b);
      if m.index < |sys.clients| {
        var c := sys.clients[m.index];
        if After(c, sys.server, b, m.outcome) != sys.server {
          OnlyGoodIsMutated(c, sys.server, b, m.outcome);
        }
        AloneUpToDate(c, sys.server, b, m.outcome);
        if Effect(c, sys.server, b) != sys.server && !Finished(c) {
          OnlyGoodIsMutated(c, sys.server, b, Normal);
        }
      }
      ForeignStateUntouched(next, moves[1..], b);
    }
  }

  lemma AloneUpToDate(c: Client, s: Server, b: Bundle, o: Outcome)
    requires WellFormed(b) && UpToDate(c, s, b)
    ensures UpToDate(Advance(c, s, b, o), After(c, s, b, o), b)
  {
    hide Answered;
    hide Effect;
    if !Finished(c) {
      AnswerUpToDate(c, s, b);
    }
  }

  lemma ForeignServer(s: Server, clients: seq<Client>, moves: seq<Move>, b: Bundle)
    requires WellFormed(b) && !Good(s, b) && Fresh(clients)
    ensures Run(System(s, clients), moves, b).server == s
  {
    ForeignStateUntouched(System(s, clients), moves, b);
  }

  /** What a client that reports success says about the server. */
  ghost predicate TrueReport(c: Client, s: Server, b: Bundle)
    requires c.phase.Done?
  {
    && s.release.Some?
    && var r := s.release.value;
      && r.id == c.phase.id && r.meta == b.meta && !r.prerelease
      && (forall name :: name in b.files <==> exists k :: 0 <= k < |r.assets| && r.assets[k].name == name)
      && (forall k :: 0 <= k < |r.assets| ==> r.assets[k].uploaded && r.assets[k].content == b.files[r.assets[k].name])
      && (forall j, k :: 0 <= j < k < |r.assets| ==> r.assets[j].name != r.assets[k].name)
      && (c.phase.recovered || c.role.Publisher? ==> !r.draft && r.immutable && s.tag == Some(b.meta.target))
      && (c.role.Publisher? ==> c.role.expected == c.phase.id)
  }

  lemma HoldingIsTrue(c: Client, s: Server, b: Bundle)
    requires c.phase.Done? && HoldsAll(s, c.phase.id, b) && RoleFits(c)
    requires s.release.value.meta == b.meta && !s.release.value.prerelease
    requires c.phase.recovered || c.role.Publisher? ==>
      !s.release.value.draft && s.release.value.immutable && s.tag == Some(b.meta.target)
    ensures TrueReport(c, s, b)
  {
    var r := s.release.value;
    forall name ensures name in b.files <==> exists k :: 0 <= k < |r.assets| && r.assets[k].name == name {
      assert HasAsset(r.assets, name) <==> exists k :: 0 <= k < |r.assets| && r.assets[k].name == name;
    }
  }

  lemma GoodReport(c: Client, s: Server, b: Bundle)
    requires c.phase.Done? && Good(s, b) && Knows(c, s, b)
    ensures HoldsAll(s, c.phase.id, b) && TrueReport(c, s, b)
  {
    hide AssetsMatch;
    hide HasAsset;
    hide TrueReport;
    HoldingIsTrue(c, s, b);
  }

  lemma ForeignReport(c: Client, s: Server, b: Bundle)
    requires c.phase.Done? && UpToDate(c, s, b)
    ensures HoldsAll(s, c.phase.id, b) && TrueReport(c, s, b)
  {
    hide AssetsMatch;
    hide HasAsset;
    hide TrueReport;
    HoldingIsTrue(c, s, b);
  }

  lemma FreshIsOk(s: Server, clients: seq<Client>, b: Bundle)
    requires Fresh(clients)
    ensures Good(s, b) ==> SystemOk(System(s, clients), b)
    ensures forall i :: 0 <= i < |clients| ==> UpToDate(clients[i], s, b)
  {
    hide Good;
  }

  /**
   A client that reports success has told the truth, whatever the server held at the start:
   the exact release with exactly the local files, public and immutable where that is said.
   */
  lemma ReportsAreTrue(s: Server, clients: seq<Client>, moves: seq<Move>, b: Bundle, i: nat)
    requires WellFormed(b) && Fresh(clients) && i < |clients|
    requires Run(System(s, clients), moves, b).clients[i].phase.Done?
    ensures var end := Run(System(s, clients), moves, b);
      HoldsAll(end.server, end.clients[i].phase.id, b) && TrueReport(end.clients[i], end.server, b)
  {
    hide Run;
    hide Good;
    hide Knows;
    hide UpToDate;
    hide HoldsAll;
    hide TrueReport;
    var end := Run(System(s, clients), moves, b);
    FreshIsOk(s, clients, b);
    if Good(s, b) {
      RunKeepsOk(System(s, clients), moves, b);
      GoodReport(end.clients[i], end.server, b);
    } else {
      ForeignStateUntouched(System(s, clients), moves, b);
      ForeignReport(end.clients[i], s, b);
    }
  }

  /** One client running alone; the outcomes end where it is cut off. */
  function Alone(c: Client, s: Server, b: Bundle, outcomes: seq<Outcome>): System
    decreases |outcomes|
  {
    if |outcomes| == 0 then System(s, [c])
    else Alone(Advance(c, s, b, outcomes[0]), After(c, s, b, outcomes[0]), b, outcomes[1..])
  }

  lemma {:induction false} AloneSafe(c: Client, s: Server, b: Bundle, outcomes: seq<Outcome>)
    requires WellFormed(b) && Good(s, b) && Recorded(s) && s.patches <= 1 && Knows(c, s, b) && UpToDate(c, s, b)
    ensures var t := Alone(c, s, b, outcomes).server;
      Good(t, b) && Recorded(t) && t.patches <= 1 && Grows(s, t) && (Public(s) ==> t == s)
    decreases |outcomes|
  {
    hide UpToDate;
    hide Good;
    hide Knows;
    hide Answered;
    GrowsRefl(s);
    if |outcomes| > 0 {
      var o := outcomes[0];
      var c', s' := Advance(c, s, b, o), After(c, s, b, o);
      StepKeepsGood(c, s, b, o);
      AloneUpToDate(c, s, b, o);
      if s' != s {
        OnlyGoodIsMutated(c, s, b, o);
      }
      if o.Normal? && !Finished(c) {
        AnswerKnows(c, s, b);
      } else {
        StoppedKnows(c, s, s', b);
      }
      OnePatch(c, s, b, o);
      AloneSafe(c', s', b, outcomes[1..]);
    }
  }

  lemma OnePatch(c: Client, s: Server, b: Bundle, o: Outcome)
    requires UpToDate(c, s, b) && Recorded(s) && s.patches <= 1
    ensures After(c, s, b, o).patches <= 1
  {
    hide AssetsMatch;
    hide HasAsset;
  }

  datatype Session = Session(role: Role, outcomes: seq<Outcome>)

  function RunSessions(s: Server, sessions: seq<Session>, b: Bundle): Server
    decreases |sessions|
  {
    if |sessions| == 0 then s
    else RunSessions(Alone(Client(sessions[0].role, GetTag(false)), s, b, sessions[0].outcomes).server, sessions[1..], b)
  }

  /**
   Runs that do not overlap, each cut off anywhere: one creation, one upload per asset and
   one publication at most; once the release is public nothing is mutated any more.
   */
  lemma {:induction false} SessionsSafe(s: Server, sessions: seq<Session>, b: Bundle)
    requires WellFormed(b) && Good(s, b) && Recorded(s) && s.patches <= 1
    ensures var t := RunSessions(s, sessions, b);
      && Good(t, b) && Recorded(t) && Grows(s, t)
      && t.creates <= 1 && t.patches <= 1
      && (forall i, j :: 0 <= i < j < |t.uploads| ==> t.uploads[i] != t.uploads[j])
      && (Public(s) ==> t == s)
    decreases |sessions|
  {
    GrowsRefl(s);
    if |sessions| > 0 {
      hide Good;
      hide Grows;
      hide Recorded;
      hide Alone;
      var c := Client(sessions[0].role, GetTag(false));
      AloneSafe(c, s, b, sessions[0].outcomes);
      var next := Alone(c, s, b, sessions[0].outcomes).server;
      SessionsSafe(next, sessions[1..], b);
      GrowsTrans(s, next, RunSessions(s, sessions, b));
    } else if s.release.Some? {
      assert forall i :: 0 <= i < |s.uploads| ==> s.uploads[i] == s.release.value.assets[i].name;
    }
  }

  // ---------- runs that are not cut off ----------

  function Budget(p: Phase, b: Bundle): nat {
    var rounds := |b.names|;
    match p
    case GetTag(_) => 21 + 4 * rounds
    case ListReleases(_, _) => 20 + 4 * rounds
    case ReadById(_, _) => 6
    case ReadByTag(_, _, _) => 5
    case PostDraft => 5 + 4 * rounds
    case ReadDraft(_) => 4 + 4 * rounds
    case TagAbsent(_, i) => 3 + 4 * RoundsLeft(i, b)
    case DraftAgain(_, i) => 2 + 4 * RoundsLeft(i, b)
    case ListAssets(_, i) => 1 + 4 * RoundsLeft(i, b)
    case Upload(_, i) => 4 * RoundsLeft(i, b)
    case RacedAssets(_, i) => 0
    case FinalTag(_) => 3
    case FinalDraft(_) => 2
    case FinalAssets(_) => 1
    case Evidence(_) => 11
    case FirstDraft(_) => 10
    case FirstTag(_) => 9
    case DraftAssets(_) => 8
    case SecondDraft(_) => 7
    case SecondTag(_) => 6
    case Patch(_) => 5
    case FrozenById(_, _) => 4
    case FrozenByTag(_, _) => 3
    case FrozenTag(_, _) => 2
    case FrozenAssets(_, _) => 1
    case Done(_, _) => 0
    case Failed => 0
  }

  function RoundsLeft(i: nat, b: Bundle): nat {
    if i < |b.names| then |b.names| - i else 0
  }

  /** The server lets this client finish: a publisher needs its complete draft, and publication freezes. */
  ghost predicate Willing(c: Client, s: Server, b: Bundle) {
    && c.phase != GetTag(true) && !(c.phase.ListReleases? && c.phase.raced)
    && !c.phase.RacedAssets? && !c.phase.Failed?
    && (c.phase.Upload? ==> c.phase.i < |b.names|)
    && (c.role.Publisher? ==> HoldsAll(s, c.role.expected, b) && s.freezes)
    && (Public(s) ==> s.freezes)
    && (c.phase.Done? ==> HoldsAll(s, c.phase.id, b) && (c.role.Publisher? ==> Public(s) && c.phase.id == c.role.expected))
    && RoleFits(c)
    && (c.phase.FrozenById? || c.phase.FrozenByTag? || c.phase.FrozenTag? || c.phase.FrozenAssets? ==>
          c.role.Publisher? ==> c.phase.id == c.role.expected)
  }

  lemma AllHeld(s: Server, id: ReleaseId, b: Bundle)
    requires WellFormed(b) && Good(s, b) && HoldsFirst(s, id, |b.names|, b)
    ensures HoldsAll(s, id, b)
  {
    hide HasAsset;
    forall name | name in b.files ensures HasAsset(s.release.value.assets, name) {
      assert name in b.names;
    }
  }

  /** Left alone, a willing client is never refused. */
  lemma AloneWilling(c: Client, s: Server, b: Bundle)
    requires WellFormed(b) && Good(s, b) && UpToDate(c, s, b) && Willing(c, s, b) && !Finished(c)
    ensures Willing(Advance(c, s, b, Normal), After(c, s, b, Normal), b)
  {
    if OfPreparer(c.phase) {
      PreparerWilling(c, s, b);
    } else {
      OthersWilling(c, s, b);
    }
  }

  lemma PreparerWilling(c: Client, s: Server, b: Bundle)
    requires WellFormed(b) && Good(s, b) && UpToDate(c, s, b) && Willing(c, s, b) && OfPreparer(c.phase)
    ensures Willing(Advance(c, s, b, Normal), After(c, s, b, Normal), b)
  {
    hide AssetsMatch;
    hide HasAsset;
    match c.phase
    case FinalTag(id) => AllHeld(s, id, b);
    case FinalDraft(id) => AllHeld(s, id, b);
    case FinalAssets(id) => AllHeld(s, id, b);
    case _ =>
  }

  lemma OthersWilling(c: Client, s: Server, b: Bundle)
    requires Good(s, b) && UpToDate(c, s, b) && Willing(c, s, b) && !Finished(c) && !OfPreparer(c.phase)
    ensures Willing(Advance(c, s, b, Normal), After(c, s, b, Normal), b)
  {
    hide AssetsMatch;
    hide HasAsset;
    hide HoldsFirst;
    hide WellFormed;
  }

  lemma AloneCloser(c: Client, s: Server, b: Bundle)
    requires UpToDate(c, s, b) && !Finished(c) && !c.phase.RacedAssets?
    requires !Answered(c, s, b).Failed? && !Answered(c, s, b).RacedAssets?
    requires Answered(c, s, b) != GetTag(true)
    ensures Budget(Answered(c, s, b), b) < Budget(c.phase, b)
  {
    hide AssetsMatch;
    hide HasAsset;
    hide AssetsComplete;
    hide HoldsFirst;
    hide Drafted;
    hide Published;
  }

  function Normals(n: nat): seq<Outcome> {
    if n == 0 then [] else [Normal] + Normals(n - 1)
  }

  lemma {:induction false} AloneCompletes(c: Client, s: Server, b: Bundle, n: nat)
    requires WellFormed(b) && Good(s, b) && Recorded(s) && Knows(c, s, b) && UpToDate(c, s, b) && Willing(c, s, b)
    requires n >= Budget(c.phase, b)
    ensures var end := Alone(c, s, b, Normals(n));
      && |end.clients| == 1 && end.clients[0].phase.Done? && end.clients[0].role == c.role
      && Willing(end.clients[0], end.server, b)
      && Good(end.server, b) && Recorded(end.server) && Grows(s, end.server)
    decreases n
  {
    hide Knows;
    hide UpToDate;
    hide Good;
    hide Recorded;
    hide Answered;
    hide Effect;
    GrowsRefl(s);
    if n > 0 {
      assert Normals(n)[1..] == Normals(n - 1);
      var c', s' := Advance(c, s, b, Normal), After(c, s, b, Normal);
      StepKeepsGood(c, s, b, Normal);
      AloneUpToDate(c, s, b, Normal);
      if Finished(c) {
        hide Willing;
        AloneCompletes(c, s, b, n - 1);
      } else {
        AnswerKnows(c, s, b);
        AloneWilling(c, s, b);
        AloneCloser(c, s, b);
        hide Willing;
        AloneCompletes(c', s', b, n - 1);
        GrowsTrans(s, s', Alone(c', s', b, Normals(n - 1)).server);
      }
    } else {
      OutOfBudget(c, b);
    }
  }

  lemma OutOfBudget(c: Client, b: Bundle)
    requires Budget(c.phase, b) == 0 && !c.phase.Failed? && !c.phase.RacedAssets?
    requires c.phase.Upload? ==> c.phase.i < |b.names|
    ensures c.phase.Done?
  {
  }

  /**
   From any good state, however many runs were cut off before, a preparation that is left
   alone and the publication of the id it returns end in the exact public release.
   */
  lemma PairPublishes(s: Server, b: Bundle, n: nat, m: nat)
    requires WellFormed(b) && Good(s, b) && Recorded(s) && s.freezes
    requires n >= 21 + 4 * |b.names| && m >= 21 + 4 * |b.names|
    ensures var prepared := Alone(Client(Preparer, GetTag(false)), s, b, Normals(n));
      && |prepared.clients| == 1 && prepared.clients[0].phase.Done?
      && var published := Alone(Client(Publisher(prepared.clients[0].phase.id), GetTag(false)), prepared.server, b, Normals(m));
      && |published.clients| == 1 && published.clients[0].phase.Done?
      && Public(published.server) && published.server.release.value.immutable
      && published.server.release.value.meta == b.meta && published.server.tag == Some(b.meta.target)
      && AssetsComplete(published.server.release.value.assets, b)
  {
    hide AssetsMatch;
    hide HasAsset;
    hide Alone;
    hide Normals;
    AloneCompletes(Client(Preparer, GetTag(false)), s, b, n);
    var prepared := Alone(Client(Preparer, GetTag(false)), s, b, Normals(n));
    var publisher := Client(Publisher(prepared.clients[0].phase.id), GetTag(false));
    AloneCompletes(publisher, prepared.server, b, m);
  }
}
