/** Server and client from nothing: construction, first keys, full update, operations. */
module System {
  import opened Bits
  import opened ControlPlane
  import opened PackedArray
  import opened Codec
  import opened Sizing
  import opened Trackers
  import opened Verifiers
  import opened Wire
  import opened Criot
  import FM = FilterModel
  import TM = TrackerModel

  /** The whole system.  From sane sizes and two lists of distinct keys, the server is built, a
      client gets a full update, and any operations follow, each delivered as bytes, with a full
      update after every rebuild.  (For a revocation the server sends a delta even after a
      rebuild; `RevokeCertificate` says what comes of that.)  The first build comes to an end
      exactly when `Builds` says so.  From then on, unless a rebuild gets stuck, the key sets are
      what the operations make of the lists, and the server answers 1 on the positive and 0 on the
      negative keys; so does the client, which answers every possible key alike, up to a delta
      with flips that it does not get to see and that do not cancel out. */
  method WholeSystem(setup: Setup, retries: nat, extras: Extras, positive: seq<Key>, negative: seq<Key>, ops: seq<Op>)
    returns (server: CriotControl, client: DassVerifier, n: nat, stop: Stop)
    requires Sane(setup)
    requires TM.Distinct(positive) && TM.Distinct(negative) && TM.Elements(positive) !! TM.Elements(negative)
    ensures stop == Unbuilt <==> !Builds(setup, DRAWN_AT_START, positive, negative, retries)
    ensures var start := Ledger(TM.Elements(positive), TM.Elements(negative));
            && n <= |ops| && (stop == Finished ==> n == |ops|)
            && (stop == Stuck || stop == NotAdmitted || stop == Diverged ==> n < |ops|)
            && (stop == Stuck ==> server.StuckOnceAt(ApplyAll(start, ops[..n + 1]), DRAWN_AT_START + 1))
            && (stop == Finished || stop == NotAdmitted ==>
                  server.Valid() && server.Book() == ApplyAll(start, ops[..n]) && server.BothExact(client))
            && (stop == NotAdmitted ==> !server.Admits(ops[n]))
            && (stop == Diverged ==>
                  && server.Valid() && server.Book() == ApplyAll(start, ops[..n + 1]) && server.ServerExact()
                  && server.Trails(client) && !Cancels(Dropped(server.flippedIndexes)))
    ensures server.voControl.setup == setup && server.retries == retries
  {
    hide ControlPlaneOthello.Valid, ControlPlaneOthello.Shape, FM.Filter.Ok, TM.Exact, TM.Distinct, TM.Elements;
    hide Sane, Builds, Apply, CriotControl.BothExact, CriotControl.ServerExact, CriotControl.Admits;
    hide CriotControl.Trails, CriotControl.StuckAt, Cancels;
    server := new CriotControl(setup, retries, extras);
    client := new DassVerifier(setup);
    var r := server.Init(positive, negative);
    if r == Failed {
      return server, client, 0, Unbuilt;
    }
    server.SendFull(client);
    n, stop := server.Run(ops, client);
  }

  /** A client that comes after the operations.  It takes the full update that the server made on
      its last rebuild and is fed all changes since then; `all` says whether it was fed to the
      end. */
  method LateClient(setup: Setup, retries: nat, extras: Extras, positive: seq<Key>, negative: seq<Key>, ops: seq<Op>)
    returns (server: CriotControl, client: DassVerifier, n: nat, stop: Stop, log: seq<Record>, all: bool)
    requires Sane(setup)
    requires TM.Distinct(positive) && TM.Distinct(negative) && TM.Elements(positive) !! TM.Elements(negative)
    ensures stop == Unbuilt <==> !Builds(setup, DRAWN_AT_START, positive, negative, retries)
    ensures var start := Ledger(TM.Elements(positive), TM.Elements(negative));
            && n <= |ops| && (stop == Finished ==> n == |ops|) && stop != Diverged
            && (stop == Stuck ==> n < |ops| && server.StuckOnceAt(ApplyAll(start, ops[..n + 1]), DRAWN_AT_START + 1))
            && (stop == Finished || stop == NotAdmitted ==>
                  && server.Valid() && server.Book() == ApplyAll(start, ops[..n]) && server.ServerExact()
                  && server.Logged(log) && (all <==> forall r :: r in log ==> Cancels(Dropped(r.flips)))
                  && (all ==> server.BothExact(client)))
            && (stop == NotAdmitted ==> n < |ops| && !server.Admits(ops[n]))
    ensures server.voControl.setup == setup && server.retries == retries
  {
    hide ControlPlaneOthello.Valid, ControlPlaneOthello.Shape, FM.Filter.Ok, TM.Exact, TM.Distinct, TM.Elements;
    hide Sane, Builds, Apply, CriotControl.BothExact, CriotControl.ServerExact, CriotControl.Admits;
    hide CriotControl.StuckAt, Cancels, CriotControl.Logged;
    server := new CriotControl(setup, retries, extras);
    client := new DassVerifier(setup);
    log, all := [], false;
    var r := server.Init(positive, negative);
    if r == Failed {
      return server, client, 0, Unbuilt, log, all;
    }
    n, stop, log := server.ServeAll(ops);
    if stop != Stuck {
      all := server.JoinLate(client, log);
    }
  }
}
