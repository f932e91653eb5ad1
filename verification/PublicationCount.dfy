module PublicationCount {
  /**
   How many PATCH requests of scripts/release_contract.py (2926-3034) can succeed when
   preparers and publishers overlap: the exact maximum over all interleavings.
   */

  import opened Optional
  import opened ReleaseProtocol

  // ---------- the upper bound ----------

  /** The id the release has, or will have once it is created. */
  function Target(s: Server): ReleaseId {
    if s.release.Some? then s.release.value.id else s.nextId
  }

  /** The client can still send a PATCH that succeeds. */
  ghost predicate MayPatch(c: Client, s: Server) {
    && c.role == Publisher(Target(s))
    && (|| OfPublisher(c.phase)
        || (!Public(s) && (c.phase.GetTag? || (c.phase.ListReleases? && c.phase.observed.None?))))
  }

  ghost function Left(clients: seq<Client>, s: Server): nat {
    if |clients| == 0 then 0
    else Left(clients[..|clients| - 1], s) + if MayPatch(clients[|clients| - 1], s) then 1 else 0
  }

  function Publishers(clients: seq<Client>, id: ReleaseId): nat {
    if |clients| == 0 then 0
    else Publishers(clients[..|clients| - 1], id) + if clients[|clients| - 1].role == Publisher(id) then 1 else 0
  }

  lemma {:induction false} LeftUpdate(clients: seq<Client>, s: Server, i: nat, c: Client)
    requires i < |clients|
    ensures Left(clients[i := c], s) + (if MayPatch(clients[i], s) then 1 else 0)
         == Left(clients, s) + (if MayPatch(c, s) then 1 else 0)
  {
    hide MayPatch;
    var n := |clients| - 1;
    if i == n {
      assert clients[i := c][..n] == clients[..n];
    } else {
      assert clients[i := c][..n] == clients[..n][i := c];
      LeftUpdate(clients[..n], s, i, c);
    }
  }

  lemma {:induction false} LeftMonotone(clients: seq<Client>, s: Server, s': Server)
    requires forall c :: MayPatch(c, s') ==> MayPatch(c, s)
    ensures Left(clients, s') <= Left(clients, s)
  {
    hide MayPatch;
    if |clients| > 0 {
      LeftMonotone(clients[..|clients| - 1], s, s');
    }
  }

  lemma {:induction false} LeftAtStart(clients: seq<Client>, s: Server)
    requires Fresh(clients)
    ensures Left(clients, s) == if Public(s) then 0 else Publishers(clients, Target(s))
  {
    if |clients| > 0 {
      LeftAtStart(clients[..|clients| - 1], s);
    }
  }

  /** A step keeps the target, and a PATCH uses up the client that sends it. */
  lemma StepBound(c: Client, s: Server, b: Bundle, o: Outcome)
    requires Good(s, b) && Knows(c, s, b)
    ensures var c', s' := Advance(c, s, b, o), After(c, s, b, o);
      && Target(s') == Target(s) && (Public(s) ==> Public(s'))
      && s'.patches + (if MayPatch(c', s') then 1 else 0) <= s.patches + (if MayPatch(c, s) then 1 else 0)
  {
    hide AssetsMatch;
    hide AssetsComplete;
    hide HasAsset;
    hide HoldsFirst;
  }

  lemma {:induction false} RunBound(sys: System, moves: seq<Move>, b: Bundle)
    requires WellFormed(b) && SystemOk(sys, b)
    ensures Run(sys, moves, b).server.patches <= sys.server.patches + Left(sys.clients, sys.server)
    decreases |moves|
  {
    hide Good;
    hide Knows;
    hide Advance;
    hide After;
    hide Recorded;
    if |moves| > 0 {
      var m, s, next := moves[0], sys.server, Next(sys, moves[0], b);
      if m.index < |sys.clients| {
        var c := sys.clients[m.index];
        StepBound(c, s, b, m.outcome);
        assert forall d :: MayPatch(d, next.server) ==> MayPatch(d, s);
        hide MayPatch;
        LeftUpdate(sys.clients, next.server, m.index, Advance(c, s, b, m.outcome));
        LeftMonotone(sys.clients[m.index := c], s, next.server);
        LeftElsewhere(sys.clients, s, next.server, m.index);
      }
      MoveKeepsOk(sys, m, b);
      RunBound(next, moves[1..], b);
    }
  }

  /** The other clients' count does not grow. */
  lemma {:induction false} LeftElsewhere(clients: seq<Client>, s: Server, s': Server, i: nat)
    requires i < |clients| && forall c :: MayPatch(c, s') ==> MayPatch(c, s)
    ensures Left(clients, s') + (if MayPatch(clients[i], s) then 1 else 0)
         <= Left(clients, s) + (if MayPatch(clients[i], s') then 1 else 0)
  {
    hide MayPatch;
    var n := |clients| - 1;
    if i == n {
      LeftMonotone(clients[..n], s, s');
    } else {
      LeftElsewhere(clients[..n], s, s', i);
    }
  }

  // ---------- when nothing can be published ----------

  ghost predicate Complete(s: Server, b: Bundle) {
    s.release.Some? && AssetsComplete(s.release.value.assets, b)
  }

  predicate HasPreparer(clients: seq<Client>) {
    exists i :: 0 <= i < |clients| && clients[i].role.Preparer?
  }

  /** Publishers alone change nothing as long as the draft is not complete. */
  lemma {:induction false} IncompleteUntouched(sys: System, moves: seq<Move>, b: Bundle)
    requires WellFormed(b) && SystemOk(sys, b) && !Complete(sys.server, b) && !HasPreparer(sys.clients)
    ensures Run(sys, moves, b).server == sys.server
    decreases |moves|
  {
    if |moves| > 0 {
      var m, next := moves[0], Next(sys, moves[0], b);
      if m.index < |sys.clients| {
        OnlyCompleteIsPatched(sys.clients[m.index], sys.server, b);
      }
      MoveKeepsOk(sys, m, b);
      hide Effect;
      hide Answered;
      hide SystemOk;
      IncompleteUntouched(next, moves[1..], b);
    }
  }

  lemma OnlyCompleteIsPatched(c: Client, s: Server, b: Bundle)
    requires Knows(c, s, b) && c.role.Publisher?
    ensures Effect(c, s, b) != s ==> Complete(s, b)
  {
  }

  // ---------- the bound is reached ----------

  function Repeated(i: nat, n: nat): seq<Move> {
    if n == 0 then [] else [Move(i, Normal)] + Repeated(i, n - 1)
  }

  /** The phases of a publisher from its start to its PATCH. */
  function PublisherPath(id: ReleaseId): seq<Phase> {
    [GetTag(false), ListReleases(false, None), Evidence(id), FirstDraft(id), FirstTag(id), DraftAssets(id),
     SecondDraft(id), SecondTag(id), Patch(id)]
  }

  lemma PathStep(s: Server, id: ReleaseId, k: nat, b: Bundle)
    requires k < 8 && Drafted(s, id, b) && CompleteRead(s, id, b)
    ensures var c := Client(Publisher(id), PublisherPath(id)[k]);
      Advance(c, s, b, Normal) == c.(phase := PublisherPath(id)[k + 1]) && After(c, s, b, Normal) == s
  {
    hide AssetsComplete;
  }

  /** Undisturbed, a publisher of a complete draft comes to its PATCH. */
  lemma {:induction false} ReachesPatch(sys: System, i: nat, id: ReleaseId, k: nat, b: Bundle)
    requires k <= 8 && i < |sys.clients| && sys.clients[i] == Client(Publisher(id), PublisherPath(id)[k])
    requires Drafted(sys.server, id, b) && CompleteRead(sys.server, id, b)
    ensures Run(sys, Repeated(i, 8 - k), b) == sys.(clients := sys.clients[i := Client(Publisher(id), Patch(id))])
    decreases 8 - k
  {
    hide PublisherPath;
    hide Drafted;
    hide CompleteRead;
    hide Advance;
    hide After;
    PathEnd(id);
    if k < 8 {
      PathStep(sys.server, id, k, b);
      var next := Next(sys, Move(i, Normal), b);
      assert Repeated(i, 8 - k)[1..] == Repeated(i, 8 - (k + 1));
      ReachesPatch(next, i, id, k + 1, b);
      assert next.clients[i := Client(Publisher(id), Patch(id))] == sys.clients[i := Client(Publisher(id), Patch(id))];
    } else {
      assert sys.clients[i := Client(Publisher(id), Patch(id))] == sys.clients;
    }
  }

  lemma PathEnd(id: ReleaseId)
    ensures |PublisherPath(id)| == 9 && PublisherPath(id)[8] == Patch(id) && PublisherPath(id)[0] == GetTag(false)
  {
  }

  /** In a system, a client that is served alone goes where it goes alone. */
  lemma {:induction false} ServedAlone(sys: System, i: nat, n: nat, b: Bundle)
    requires i < |sys.clients|
    ensures var e := Alone(sys.clients[i], sys.server, b, Normals(n));
      |e.clients| == 1 && Run(sys, Repeated(i, n), b) == System(e.server, sys.clients[i := e.clients[0]])
    decreases n
  {
    hide Advance;
    hide After;
    if n == 0 {
      assert sys.clients[i := sys.clients[i]] == sys.clients;
    } else {
      var next := Next(sys, Move(i, Normal), b);
      assert Repeated(i, n)[1..] == Repeated(i, n - 1);
      assert Normals(n)[1..] == Normals(n - 1);
      ServedAlone(next, i, n - 1, b);
      var c := Alone(next.clients[i], next.server, b, Normals(n - 1)).clients[0];
      assert next.clients[i := c] == sys.clients[i := c];
    }
  }

  lemma {:induction false} PreparerNeverPatches(c: Client, s: Server, b: Bundle, n: nat)
    requires WellFormed(b) && Good(s, b) && Recorded(s) && Knows(c, s, b) && c.role.Preparer?
    ensures Alone(c, s, b, Normals(n)).server.patches == s.patches
    decreases n
  {
    hide Good;
    hide Recorded;
    hide Knows;
    hide Answered;
    if n > 0 {
      assert Normals(n)[1..] == Normals(n - 1);
      var s' := After(c, s, b, Normal);
      StepKeepsGood(c, s, b, Normal);
      if Finished(c) {
        PreparerNeverPatches(c, s, b, n - 1);
      } else {
        NotAtPatch(c, s, b);
        AnswerKnows(c, s, b);
        PreparerNeverPatches(Advance(c, s, b, Normal), s', b, n - 1);
      }
    }
  }

  lemma NotAtPatch(c: Client, s: Server, b: Bundle)
    requires Knows(c, s, b) && c.role.Preparer?
    ensures !c.phase.Patch?
  {
  }

  /** A preparer served alone completes the draft. */
  lemma PreparerCompletes(s: Server, clients: seq<Client>, i: nat, b: Bundle) returns (moves: seq<Move>, end: System)
    requires WellFormed(b) && Good(s, b) && Recorded(s) && !Public(s) && Fresh(clients)
    requires i < |clients| && clients[i].role.Preparer?
    ensures Run(System(s, clients), moves, b) == end && |end.clients| == |clients|
    ensures forall k :: 0 <= k < |clients| && clients[k].role.Publisher? ==> end.clients[k] == clients[k]
    ensures Good(end.server, b) && !Public(end.server) && Complete(end.server, b)
    ensures end.server.patches == s.patches && Target(end.server) == Target(s)
  {
    hide AssetsMatch;
    hide HasAsset;
    var n := 21 + 4 * |b.names|;
    moves := Repeated(i, n);
    end := Run(System(s, clients), moves, b);
    ServedAlone(System(s, clients), i, n, b);
    PreparerNeverPatches(clients[i], s, b, n);
    AloneCompletes(clients[i], s, b, n);
    TargetKept(System(s, clients), moves, b);
    hide Alone;
    hide Run;
  }

  lemma {:induction false} TargetKept(sys: System, moves: seq<Move>, b: Bundle)
    requires WellFormed(b) && SystemOk(sys, b)
    ensures Target(Run(sys, moves, b).server) == Target(sys.server)
    decreases |moves|
  {
    hide Good;
    hide Knows;
    hide Advance;
    hide After;
    if |moves| > 0 {
      var m, next := moves[0], Next(sys, moves[0], b);
      if m.index < |sys.clients| {
        StepBound(sys.clients[m.index], sys.server, b, m.outcome);
      }
      MoveKeepsOk(sys, m, b);
      TargetKept(next, moves[1..], b);
    }
  }

  /** Clients from j on that publish this id are fresh; those before j are at their PATCH. */
  ghost predicate Assembled(clients: seq<Client>, id: ReleaseId, j: nat) {
    forall k :: 0 <= k < |clients| && clients[k].role == Publisher(id) ==>
      clients[k].phase == if k < j then Patch(id) else GetTag(false)
  }

  /** One after the other the publishers come to their PATCH. */
  lemma {:induction false} AllReachPatch(sys: System, id: ReleaseId, j: nat, b: Bundle) returns (moves: seq<Move>, end: System)
    requires Drafted(sys.server, id, b) && CompleteRead(sys.server, id, b)
    requires j <= |sys.clients| && Assembled(sys.clients, id, j)
    ensures Run(sys, moves, b) == end && end.server == sys.server && |end.clients| == |sys.clients|
    ensures forall k :: 0 <= k < |sys.clients| ==> end.clients[k].role == sys.clients[k].role
    ensures Assembled(end.clients, id, |end.clients|)
    decreases |sys.clients| - j
  {
    hide Drafted;
    hide CompleteRead;
    hide Next;
    if j == |sys.clients| {
      moves, end := [], sys;
    } else if sys.clients[j].role == Publisher(id) {
      PathEnd(id);
      ReachesPatch(sys, j, id, 0, b);
      var next := Run(sys, Repeated(j, 8), b);
      var rest;
      rest, end := AllReachPatch(next, id, j + 1, b);
      moves := Repeated(j, 8) + rest;
      RunConcat(sys, Repeated(j, 8), rest, b);
    } else {
      moves, end := AllReachPatch(sys, id, j + 1, b);
    }
  }

  /** One after the other they send it; clients from j on have not yet. */
  lemma {:induction false} AllPatch(sys: System, id: ReleaseId, j: nat, b: Bundle) returns (moves: seq<Move>)
    requires Holds(sys.server, id) && j <= |sys.clients|
    requires forall k :: 0 <= k < j && sys.clients[k].role == Publisher(id) ==> sys.clients[k].phase == Patch(id)
    ensures Run(sys, moves, b).server.patches == sys.server.patches + Publishers(sys.clients[..j], id)
    decreases j
  {
    if j == 0 {
      moves := [];
    } else {
      var c := sys.clients[j - 1];
      assert sys.clients[..j][..j - 1] == sys.clients[..j - 1];
      if c.role == Publisher(id) {
        var m := Move(j - 1, Normal);
        var next := Next(sys, m, b);
        PatchCounts(sys, id, j - 1, b);
        assert next.clients[..j - 1] == sys.clients[..j - 1];
        hide Next;
        var rest := AllPatch(next, id, j - 1, b);
        moves := [m] + rest;
        assert moves[1..] == rest;
      } else {
        moves := AllPatch(sys, id, j - 1, b);
      }
    }
  }

  lemma PatchCounts(sys: System, id: ReleaseId, j: nat, b: Bundle)
    requires Holds(sys.server, id) && j < |sys.clients| && sys.clients[j].phase == Patch(id)
    ensures var next := Next(sys, Move(j, Normal), b);
      && next.server.patches == sys.server.patches + 1 && Holds(next.server, id)
      && |next.clients| == |sys.clients| && forall k :: 0 <= k < |sys.clients| && k != j ==> next.clients[k] == sys.clients[k]
  {
    hide AssetsComplete;
  }

  lemma {:induction false} SamePublishers(a: seq<Client>, c: seq<Client>, id: ReleaseId)
    requires |a| == |c| && forall k :: 0 <= k < |a| ==> (a[k].role == Publisher(id) <==> c[k].role == Publisher(id))
    ensures Publishers(a, id) == Publishers(c, id)
  {
    if |a| > 0 {
      SamePublishers(a[..|a| - 1], c[..|c| - 1], id);
    }
  }

  lemma CompleteIsDrafted(s: Server, b: Bundle)
    requires Good(s, b) && !Public(s) && Complete(s, b)
    ensures Drafted(s, Target(s), b) && CompleteRead(s, Target(s), b)
  {
  }

  lemma DraftedHolds(s: Server, id: ReleaseId, b: Bundle)
    requires Drafted(s, id, b)
    ensures Holds(s, id) && Target(s) == id
  {
  }

  lemma CompletePublishes(sys: System, b: Bundle) returns (moves: seq<Move>)
    requires Drafted(sys.server, Target(sys.server), b) && CompleteRead(sys.server, Target(sys.server), b)
    requires Assembled(sys.clients, Target(sys.server), 0)
    ensures Run(sys, moves, b).server.patches == sys.server.patches + Publishers(sys.clients, Target(sys.server))
  {
    hide AssetsMatch;
    hide AssetsComplete;
    hide Run;
    hide Drafted;
    hide CompleteRead;
    var id := Target(sys.server);
    var a, mid := AllReachPatch(sys, id, 0, b);
    DraftedHolds(mid.server, id, b);
    SamePublishers(sys.clients, mid.clients, id);
    var c := AllPatch(mid, id, |mid.clients|, b);
    assert mid.clients[..|mid.clients|] == mid.clients;
    moves := a + c;
    RunConcat(sys, a, c, b);
  }

  // ---------- the exact maximum ----------

  /** The draft is complete or somebody can complete it, and it is not public yet. */
  ghost predicate Publishable(s: Server, clients: seq<Client>, b: Bundle) {
    !Public(s) && (Complete(s, b) || HasPreparer(clients))
  }

  ghost function MaxPatches(s: Server, clients: seq<Client>, b: Bundle): nat {
    s.patches + if Publishable(s, clients, b) then Publishers(clients, Target(s)) else 0
  }

  /** No interleaving exceeds the maximum. */
  lemma PatchesBounded(s: Server, clients: seq<Client>, moves: seq<Move>, b: Bundle)
    requires WellFormed(b) && Good(s, b) && Recorded(s) && Fresh(clients)
    ensures Run(System(s, clients), moves, b).server.patches <= MaxPatches(s, clients, b)
  {
    hide Good;
    hide AssetsComplete;
    RunBound(System(s, clients), moves, b);
    LeftAtStart(clients, s);
    if !Complete(s, b) && !HasPreparer(clients) {
      IncompleteUntouched(System(s, clients), moves, b);
    }
  }

  /** Some interleaving reaches it. */
  lemma PatchesReached(s: Server, clients: seq<Client>, b: Bundle) returns (moves: seq<Move>)
    requires WellFormed(b) && Good(s, b) && Recorded(s) && Fresh(clients)
    ensures Run(System(s, clients), moves, b).server.patches == MaxPatches(s, clients, b)
  {
    hide Good;
    hide Recorded;
    hide Next;
    hide AssetsComplete;
    if !Publishable(s, clients, b) {
      moves := [];
    } else if Complete(s, b) {
      CompleteIsDrafted(s, b);
      moves := CompletePublishes(System(s, clients), b);
    } else {
      var i :| 0 <= i < |clients| && clients[i].role.Preparer?;
      var first, mid := PreparerCompletes(s, clients, i, b);
      RolesKept(System(s, clients), first, b);
      CompleteIsDrafted(mid.server, b);
      var rest := CompletePublishes(mid, b);
      SamePublishers(clients, mid.clients, Target(s));
      moves := first + rest;
      RunConcat(System(s, clients), first, rest, b);
    }
  }

  lemma {:induction false} RolesKept(sys: System, moves: seq<Move>, b: Bundle)
    ensures forall k :: 0 <= k < |sys.clients| ==> Run(sys, moves, b).clients[k].role == sys.clients[k].role
    decreases |moves|
  {
    hide Answered;
    hide Effect;
    if |moves| > 0 {
      RolesKept(Next(sys, moves[0], b), moves[1..], b);
    }
  }

  /**
   At most one PATCH succeeds in every interleaving if and only if the release is public
   already, or fewer than two publishers expect it, or its draft can never become complete.
   */
  lemma OnePatchExactly(s: Server, clients: seq<Client>, b: Bundle)
    requires WellFormed(b) && Good(s, b) && Recorded(s) && Fresh(clients)
    ensures (forall moves: seq<Move> :: Run(System(s, clients), moves, b).server.patches <= 1)
       <==> if Public(s) then s.patches == 1
            else Publishers(clients, Target(s)) < 2 || (!Complete(s, b) && !HasPreparer(clients))
  {
    hide Good;
    hide Run;
    hide AssetsComplete;
    var most := PatchesReached(s, clients, b);
    forall moves: seq<Move> ensures Run(System(s, clients), moves, b).server.patches <= MaxPatches(s, clients, b) {
      PatchesBounded(s, clients, moves, b);
    }
  }

  /** Two publishers of one complete draft that overlap can both succeed. */
  lemma DoublePublication(s: Server, id: ReleaseId, b: Bundle)
    requires Drafted(s, id, b) && CompleteRead(s, id, b)
    ensures exists moves: seq<Move> ::
      Run(System(s, [Client(Publisher(id), GetTag(false)), Client(Publisher(id), GetTag(false))]), moves, b).server.patches
      == s.patches + 2
  {
    hide Run;
    hide AssetsComplete;
    var p := Client(Publisher(id), GetTag(false));
    DraftedHolds(s, id, b);
    var moves := CompletePublishes(System(s, [p, p]), b);
    assert [p, p][..1] == [p] && [p][..0] == [];
    assert Publishers([p], id) == 1;
    assert Run(System(s, [p, p]), moves, b).server.patches == s.patches + 2;
  }
}
