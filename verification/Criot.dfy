/** The server's wrapper around the tracker, and whole runs of server and client. */
module Criot {
  import opened Bits
  import opened PackedArray
  import opened KeyGraphs
  import opened ControlPlane
  import opened VacuumFilters
  import opened Sizing
  import opened Wrappers
  import opened Copies
  import opened Trackers
  import opened Verifiers
  import opened Codec
  import opened Wire
  import FM = FilterModel
  import FE = FilterEntries
  import TM = TrackerModel

  /** Kept: the flips are the update.  Rebuilt: a full update is due.  Failed: the rebuild did
      not come to an end (the source throws, or goes on retrying). */
  datatype Outcome = Kept | Rebuilt | Failed

  /** What a caller may ask for. */
  datatype Op = Add(k: Key, v: uint32) | Set(k: Key, v: uint32)

  /** Which keys are revoked and which are not: all that matters to a user. */
  datatype Ledger = Ledger(pk: set<Key>, nk: set<Key>)

  function Apply(l: Ledger, op: Op): Ledger {
    match op
    case Add(k, v) => if v == 1 then Ledger(l.pk + {k}, l.nk) else Ledger(l.pk, l.nk + {k})
    case Set(k, v) =>
      if v == 1 then Ledger(l.pk + {k}, l.nk - {k})
      else if v == 0 then Ledger(l.pk - {k}, l.nk + {k})
      else l
  }

  function ApplyAll(l: Ledger, ops: seq<Op>): Ledger {
    if ops == [] then l else Apply(ApplyAll(l, ops[..|ops| - 1]), ops[|ops| - 1])
  }

  /** What a delta says of an operation. */
  function ChangeOf(op: Op): (c: Change)
    ensures c.action == if op.Add? then 0 else if op.v == 1 then 3 else 2
    ensures c.k == op.k && c.v == op.v
  {
    match op
    case Add(k, v) => Change(ADD_ACTION, k, v)
    case Set(k, v) => Change(if v == 1 then REVOKE_ACTION else UNREVOKE_ACTION, k, v)
  }

  /** How a run ends: with the last operation, before one that callers may not ask for, at a
      build that gets stuck, the first one or a later one, or at a delta of whose flips the client
      does not get to see all that matter. */
  datatype Stop = Finished | NotAdmitted | Unbuilt | Stuck | Diverged

  class CriotControl {
    const voControl: DassTracker
    const voData: DassVerifier
    const retries: nat
    const extras: Extras
    var flippedIndexes: seq<nat>

    constructor (setup: Setup, retries: nat, extras: Extras)
      requires Sane(setup)
      ensures voControl.setup == setup && this.retries == retries && Linked()
      ensures voControl.pk == voControl.nk == {} && voControl.othello.drawn == DRAWN_AT_START
      ensures fresh(voControl) && fresh(voControl.vf) && fresh(voData) && fresh(voData.vf) && fresh(voData.othello)
    {
      voControl := new DassTracker(setup);
      voData := new DassVerifier(setup);
      this.retries, this.extras := retries, extras;
      flippedIndexes := [];
    }

    /** Tracker and stored verifier use the setup's hash functions but no common objects. */
    ghost predicate Linked()
      reads voControl
    {
      && Sane(voControl.setup)
      && voControl.vf.h == voData.vf.h == voControl.setup.h && voData.vf != voControl.vf
      && voData.othello.hash == voControl.setup.hash == voControl.othello.hash
    }

    ghost predicate Valid()
      reads voControl, voControl.vf, voControl.othello, voControl.othello.connectivityForest
    {
      Linked() && voControl.Valid() && voControl.vf.Ok() && voControl.othello.Shape()
    }

    /** The key sets. */
    ghost function Book(): Ledger
      reads voControl
    {
      Ledger(voControl.pk, voControl.nk)
    }

    /** The key sets, listed in some order, with the random stream at position `from`, are such
        that a build from them gets stuck. */
    ghost predicate StuckAt(l: Ledger, from: nat) {
      exists positive, negative ::
        Lists(positive, negative, l.pk, l.nk) && !Builds(voControl.setup, from, positive, negative, retries)
    }

    /** A build from these key sets gets stuck, the random stream being at `from` or further on. */
    ghost predicate StuckOnceAt(l: Ledger, from: nat) {
      exists at: nat :: at >= from && StuckAt(l, at)
    }

    /** The same for a build that comes to an end. */
    ghost predicate BuiltAt(l: Ledger, from: nat) {
      exists positive, negative ::
        Lists(positive, negative, l.pk, l.nk) && Builds(voControl.setup, from, positive, negative, retries)
    }

    /** The stored verifier is in order, and can be sent. */
    ghost predicate Ready()
      reads voData.vf, voData.othello
    {
      voData.vf.Ok() && voData.vf.Sized() && FE.CellsCounted(voData.vf.View()) && voData.othello.Shape()
    }

    /** The stored verifier is that of the tracker. */
    ghost predicate Stored()
      reads voControl, voControl.vf, voControl.othello, voData, voData.vf, voData.othello
    {
      voData.Agrees(voControl) && Ready()
    }

    /** The reaction to the sentinel: rebuild from the key sets, and renew the verifier that full
        updates are made from. */
    method RebuildAll() returns (r: Outcome)
      requires Linked() && voControl.pk !! voControl.nk
      modifies voControl, voControl.vf, voData.vf, voData.othello
      ensures r == Rebuilt || r == Failed
      ensures r == Rebuilt ==>
                && Valid() && Stored() && Book() == old(Book()) && BuiltAt(Book(), old(voControl.othello.drawn))
                && voControl.othello.drawn > old(voControl.othello.drawn)
                && fresh(voControl.othello) && fresh(voControl.othello.connectivityForest)
      ensures r == Failed ==> StuckAt(old(Book()), old(voControl.othello.drawn))
    {
      hide ControlPlaneOthello.Valid, FM.Filter.Ok, TM.Exact, ControlPlaneOthello.Shape, Sane, BatchTaken;
      hide TM.Distinct, TM.Elements, FE.CellsCounted;
      if !SizesFit(voControl.setup, |voControl.pk|, |voControl.nk|, retries) {
        TooLarge(Book(), voControl.othello.drawn);
        return Failed;
      }
      var done, positive, negative := voControl.Rebuild(retries);
      if !done {
        return Failed;
      }
      r := Rebuilt;
      Store();
    }

    /** The stored verifier is made anew. */
    method Store()
      requires Linked() && voControl.Valid() && voControl.vf.Sized()
      modifies voData.vf, voData.othello
      ensures Valid() && Stored()
    {
      hide ControlPlaneOthello.Valid, FM.Filter.Ok, TM.Exact, ControlPlaneOthello.Shape, Sane, FE.CellsCounted;
      voControl.ValidOthello();
      OthelloShape(voControl.othello);
      TM.ExactCounted(voControl.vf.h, voControl.vf.View(), voControl.othello.contents,
                      voControl.pk, voControl.nk, voControl.tnk, voControl.fpk);
      voData.Install(voControl);
      voData.othello.MirrorAnswers(voControl.othello, 0);
    }

    lemma TooLarge(l: Ledger, from: nat)
      requires !SizesFit(voControl.setup, |l.pk|, |l.nk|, retries)
      ensures StuckAt(l, from)
    {
      hide TM.Distinct, TM.Elements, BatchTaken;
      var positive := SomeList(l.pk);
      var negative := SomeList(l.nk);
      assert Lists(positive, negative, l.pk, l.nk);
    }

    /** `init`. */
    method Init(positive: seq<Key>, negative: seq<Key>) returns (r: Outcome)
      requires Linked() && voControl.pk == voControl.nk == {}
      requires TM.Distinct(positive) && TM.Distinct(negative) && TM.Elements(positive) !! TM.Elements(negative)
      modifies voControl, voControl.vf, voData.vf, voData.othello
      ensures r == Rebuilt || r == Failed
      ensures r == Rebuilt <==>
                Builds(voControl.setup, old(voControl.othello.drawn), positive, negative, retries)
      ensures r == Rebuilt ==>
                && Valid() && Stored() && Book() == Ledger(TM.Elements(positive), TM.Elements(negative))
                && voControl.othello.drawn > old(voControl.othello.drawn)
                && fresh(voControl.othello) && fresh(voControl.othello.connectivityForest)
    {
      hide ControlPlaneOthello.Valid, FM.Filter.Ok, FE.Entries, TM.Exact, TM.Distinct, TM.Elements;
      hide ControlPlaneOthello.Shape, Sane, BatchTaken, FilterFull, Pristine, FE.CellsCounted;
      if !SizesFit(voControl.setup, |positive|, |negative|, retries) {
        return Failed;
      }
      voControl.Init(|positive|, |negative|);
      var done, _ := voControl.BatchInsert(positive, negative, retries);
      if !done {
        return Failed;
      }
      r := Rebuilt;
      Store();
    }

    /** What an update without rebuild says about filter and Othello words. */
    ghost predicate AddShipped(f: FM.Filter, mem: seq<nat>, k: Key, v: nat)
      requires f.Ok()
      reads this, voControl, voControl.vf, voControl.othello
    {
      && flippedIndexes != [SENTINEL] && Replays(mem, flippedIndexes, voControl.othello.mem)
      && (v == 1 ==> (voControl.vf.View(), 0) == FM.Insert(voControl.vf.h, f, k))
      && (v != 1 ==> voControl.vf.View() == f && (flippedIndexes != [] ==> FM.Lookup(voControl.vf.h, f, k)))
    }

    ghost predicate SetShipped(f: FM.Filter, mem: seq<nat>, wasPositive: bool, wasNegative: bool, k: Key, v: nat)
      requires f.Ok()
      reads this, voControl, voControl.vf, voControl.othello
    {
      && flippedIndexes != [SENTINEL] && Replays(mem, flippedIndexes, voControl.othello.mem)
      && (wasNegative && v == 1 ==> (voControl.vf.View(), 0) == FM.Insert(voControl.vf.h, f, k))
      && (wasPositive && v == 0 ==> voControl.vf.View() == FM.Delete(voControl.vf.h, f, k).0)
      && (!(wasNegative && v == 1) && !(wasPositive && v == 0) ==> voControl.vf.View() == f && flippedIndexes == [])
    }

    ghost predicate SameSeed(seed: uint64, ma: nat, mb: nat)
      reads voControl, voControl.othello
    {
      voControl.othello.seed == seed && voControl.othello.ma == ma && voControl.othello.mb == mb
    }

    /** `insert`. */
    method Insert(k: Key, v: nat) returns (r: Outcome)
      requires Valid() && k !in voControl.pk && k !in voControl.nk
      requires voControl.RoomFor(k, v) && voControl.Storable(k, v)
      modifies this, voControl, voControl.vf, voControl.othello, voControl.othello.connectivityForest
      modifies voData.vf, voData.othello
      ensures r == Kept <==> !old(voControl.AddNeedsRebuild(k, v))
      ensures r != Kept <==> flippedIndexes == [SENTINEL]
      ensures var pk := if v == 1 then old(voControl.pk) + {k} else old(voControl.pk);
              var nk := if v == 1 then old(voControl.nk) else old(voControl.nk) + {k};
              && (r != Failed ==> Valid() && Book() == Ledger(pk, nk))
              && (r == Rebuilt ==> BuiltAt(Ledger(pk, nk), old(voControl.othello.drawn)))
              && (r == Failed ==> StuckAt(Ledger(pk, nk), old(voControl.othello.drawn)))
      ensures r == Kept ==>
                && voControl.othello == old(voControl.othello) && unchanged(voData.vf, voData.othello)
                && voControl.othello.drawn == old(voControl.othello.drawn)
                && AddShipped(old(voControl.vf.View()), old(voControl.othello.mem), k, v)
                && SameSeed(old(voControl.othello.seed), old(voControl.othello.ma), old(voControl.othello.mb))
      ensures r == Rebuilt ==>
                && Stored() && fresh(voControl.othello) && fresh(voControl.othello.connectivityForest)
                && voControl.othello.drawn > old(voControl.othello.drawn)
    {
      hide ControlPlaneOthello.Valid, FM.Filter.Ok, FM.Insert, FM.Lookup, Replays, TM.Exact, ControlPlaneOthello.Shape;
      hide DassTracker.RoomFor, DassTracker.Storable, DassTracker.AddNeedsRebuild, Sane;
      hide CriotControl.StuckAt, CriotControl.BuiltAt, Ready;
      TM.ExactOk(voControl.vf.h, voControl.vf.View(), voControl.othello.contents,
                 voControl.pk, voControl.nk, voControl.tnk, voControl.fpk);
      flippedIndexes := voControl.Insert(k, v);
      if |flippedIndexes| == 1 && flippedIndexes[0] == SENTINEL {
        r := RebuildAll();
      } else {
        OthelloShape(voControl.othello);
        r := Kept;
      }
    }

    /** `setValue`. */
    method SetValue(k: Key, v: nat) returns (r: Outcome)
      requires Valid() && (k in voControl.pk || k in voControl.nk)
      requires k in voControl.nk && v == 1 ==> voControl.RoomFor(k, v)
      modifies this, voControl, voControl.vf, voControl.othello, voControl.othello.connectivityForest
      modifies voData.vf, voData.othello
      ensures r == Kept <==> !old(voControl.SetNeedsRebuild(k, v))
      ensures r != Kept <==> flippedIndexes == [SENTINEL]
      ensures var (pk, nk) := (old(voControl.pk), old(voControl.nk));
              var pk' := if v == 1 then pk + {k} else if v == 0 then pk - {k} else pk;
              var nk' := if v == 1 then nk - {k} else if v == 0 then nk + {k} else nk;
              && (r != Failed ==> Valid() && Book() == Ledger(pk', nk'))
              && (r == Rebuilt ==> BuiltAt(Ledger(pk', nk'), old(voControl.othello.drawn)))
              && (r == Failed ==> StuckAt(Ledger(pk', nk'), old(voControl.othello.drawn)))
      ensures r == Kept ==>
                && voControl.othello == old(voControl.othello) && unchanged(voData.vf, voData.othello)
                && voControl.othello.drawn == old(voControl.othello.drawn)
                && SetShipped(old(voControl.vf.View()), old(voControl.othello.mem),
                              k in old(voControl.pk), k in old(voControl.nk), k, v)
                && SameSeed(old(voControl.othello.seed), old(voControl.othello.ma), old(voControl.othello.mb))
      ensures r == Rebuilt ==>
                && Stored() && fresh(voControl.othello) && fresh(voControl.othello.connectivityForest)
                && voControl.othello.drawn > old(voControl.othello.drawn)
    {
      hide ControlPlaneOthello.Valid, FM.Filter.Ok, FM.Insert, FM.Delete, FM.Lookup, Replays, TM.Exact;
      hide ControlPlaneOthello.Shape, DassTracker.RoomFor, DassTracker.SetNeedsRebuild, Sane;
      hide CriotControl.StuckAt, CriotControl.BuiltAt, Ready;
      TM.ExactOk(voControl.vf.h, voControl.vf.View(), voControl.othello.contents,
                 voControl.pk, voControl.nk, voControl.tnk, voControl.fpk);
      flippedIndexes := voControl.SetValue(k, v);
      if |flippedIndexes| == 1 && flippedIndexes[0] == SENTINEL {
        r := RebuildAll();
      } else {
        OthelloShape(voControl.othello);
        r := Kept;
      }
    }

    // ---- Operations ----

    /** What callers have to see to: new keys are new, known keys known, there is room in the
        Othello, and no odd value other than 1 comes with a key that the filter accepts. */
    predicate Admits(op: Op)
      requires voControl.vf.Ok() && voControl.othello.Shape()
      reads voControl, voControl.vf, voControl.othello
    {
      match op
      case Add(k, v) =>
        k !in voControl.pk && k !in voControl.nk && voControl.RoomFor(k, v) && voControl.Storable(k, v)
      case Set(k, v) =>
        (k in voControl.pk || k in voControl.nk) && (k in voControl.nk && v == 1 ==> voControl.RoomFor(k, v))
    }

    ghost predicate NeedsRebuild(op: Op)
      requires voControl.vf.Ok()
      reads voControl, voControl.vf, voControl.othello
    {
      match op
      case Add(k, v) => voControl.AddNeedsRebuild(k, v)
      case Set(k, v) => voControl.SetNeedsRebuild(k, v)
    }

    ghost predicate Shipped(op: Op, f: FM.Filter, mem: seq<nat>, was: Ledger)
      requires f.Ok()
      reads this, voControl, voControl.vf, voControl.othello
    {
      match op
      case Add(k, v) => AddShipped(f, mem, k, v)
      case Set(k, v) => SetShipped(f, mem, k in was.pk, k in was.nk, k, v)
    }

    /** An operation on the server alone. */
    method Serve(op: Op) returns (r: Outcome)
      requires Valid() && Admits(op)
      modifies this, voControl, voControl.vf, voControl.othello, voControl.othello.connectivityForest
      modifies voData.vf, voData.othello
      ensures r == Kept <==> !old(NeedsRebuild(op))
      ensures r != Kept <==> flippedIndexes == [SENTINEL]
      ensures r != Failed ==> Valid() && Book() == Apply(old(Book()), op)
      ensures r == Rebuilt ==> BuiltAt(Apply(old(Book()), op), old(voControl.othello.drawn))
      ensures r == Failed ==> StuckAt(Apply(old(Book()), op), old(voControl.othello.drawn))
      ensures r == Kept ==>
                && voControl.othello == old(voControl.othello) && unchanged(voData.vf, voData.othello)
                && voControl.othello.drawn == old(voControl.othello.drawn)
                && Shipped(op, old(voControl.vf.View()), old(voControl.othello.mem), old(Book()))
                && SameSeed(old(voControl.othello.seed), old(voControl.othello.ma), old(voControl.othello.mb))
      ensures r == Rebuilt ==>
                && Stored() && fresh(voControl.othello) && fresh(voControl.othello.connectivityForest)
                && voControl.othello.drawn > old(voControl.othello.drawn)
    {
      hide ControlPlaneOthello.Valid, FM.Filter.Ok, FM.Insert, FM.Delete, FM.Lookup, Replays, TM.Exact;
      hide ControlPlaneOthello.Shape, Sane, AddShipped, SetShipped;
      hide CriotControl.StuckAt, CriotControl.BuiltAt, Ready;
      hide DassTracker.RoomFor, DassTracker.Storable, DassTracker.AddNeedsRebuild, DassTracker.SetNeedsRebuild;
      match op {
        case Add(k, v) => r := Insert(k, v);
        case Set(k, v) => r := SetValue(k, v);
      }
    }

    // ---- A client that takes every update ----

    /** The client is a separate object. */
    ghost predicate Apart(client: DassVerifier)
      reads voControl
    {
      && client.vf.h == voControl.setup.h && client.othello.hash == voControl.setup.hash
      && client.vf != voControl.vf && client.vf != voData.vf && client.othello != voData.othello
    }

    /** A verifier in this state knows what the operation finds. */
    ghost predicate Informed(op: Op, c: Copy, was: Ledger)
      requires c.Ok()
    {
      op.Set? ==>
        && (op.k in was.pk || op.k in was.nk)
        && (op.k in was.pk ==> AnswerOf(voControl.setup.h, voControl.setup.hash, c, op.k) == 1)
        && (op.k in was.nk ==> AnswerOf(voControl.setup.h, voControl.setup.hash, c, op.k) == 0)
    }

    lemma WellInformed(op: Op)
      requires Valid() && Admits(op)
      ensures voControl.Held().Ok() && Informed(op, voControl.Held(), Book())
    {
      hide ControlPlaneOthello.Valid, FM.Filter.Ok, FM.Lookup, TM.Exact, Sane, Words;
      hide DassTracker.RoomFor, DassTracker.Storable;
      voControl.AnswersExact(op.k);
    }

    /** An operation without rebuild, as a change that comes with the first of its flips, takes a
        verifier that held what the server held to what the server now holds, but for the flips
        that are missing.  For a change of value it finds the same old answer as the server did,
        so it takes the same branch. */
    lemma Leads(op: Op, before: Copy, was: Ledger, flips: seq<nat>)
      requires Linked() && before.Ok() && Shipped(op, before.f, before.mem, was) && Informed(op, before, was)
      requires SameSeed(before.seed, before.ma, before.mb) && voControl.vf.Ok() && flips <= flippedIndexes
      ensures CodesFit(before.mem, flips) && flips != [SENTINEL]
      ensures After(voControl.setup.h, voControl.setup.hash, before, Record(ChangeOf(op), flips))
           == Some(voControl.Held().(mem := Replay(before.mem, flips)))
    {
      hide FM.Filter.Ok, FM.Insert, FM.Delete, FM.Lookup, Replay, Words, AnswerOf;
      assert CodesFit(before.mem, flips);
      NoSuchCell(before.mem, before.ma + before.mb, flips);
      ReplaysNothing(before.mem);
    }

    /** The client may lack flips that it did not get to see; it agrees if and only if they cancel
        out. */
    ghost predicate Trails(client: DassVerifier)
      reads this, voControl, voControl.vf, voControl.othello, client, client.vf, client.othello
    {
      && client.vf.h == voControl.vf.h && client.othello.hash == voControl.othello.hash
      && client.Held() == voControl.Held().(mem := client.othello.mem)
      && Replays(client.othello.mem, Dropped(flippedIndexes), voControl.othello.mem)
      && (client.Agrees(voControl) <==> Cancels(Dropped(flippedIndexes)))
    }

    /** One operation, and its update handed to the client as it is: the flips, or the stored
        verifier. */
    method StepDirect(op: Op, client: DassVerifier) returns (r: Outcome)
      requires Valid() && Apart(client) && client.Agrees(voControl) && Admits(op)
      modifies this, voControl, voControl.vf, voControl.othello, voControl.othello.connectivityForest
      modifies voData.vf, voData.othello, client.vf, client.othello
      ensures r == Kept <==> !old(NeedsRebuild(op))
      ensures r != Failed ==> Valid() && client.Agrees(voControl) && Book() == Apply(old(Book()), op)
      ensures r == Rebuilt ==> BuiltAt(Apply(old(Book()), op), old(voControl.othello.drawn))
      ensures r == Failed ==> StuckAt(Apply(old(Book()), op), old(voControl.othello.drawn))
      ensures r == Kept ==> voControl.othello == old(voControl.othello)
      ensures r == Rebuilt ==> fresh(voControl.othello) && fresh(voControl.othello.connectivityForest)
      ensures r != Failed ==> voControl.othello.drawn >= old(voControl.othello.drawn)
    {
      hide ControlPlaneOthello.Valid, FM.Filter.Ok, Replay, TM.Exact, After, ControlPlaneOthello.Shape, Sane, Shaped;
      hide CriotControl.StuckAt, CriotControl.BuiltAt, Ready, Admits, NeedsRebuild, Shipped, Apply, Informed;
      ghost var before, was := voControl.Held(), Book();
      WellInformed(op);
      r := Serve(op);
      if r == Kept {
        Leads(op, before, was, flippedIndexes);
        Arrived(op, before, was);
        var _ := client.Dispatch(Record(ChangeOf(op), flippedIndexes));
      } else if r == Rebuilt {
        client.Assign(voData);
      }
    }

    lemma Arrived(op: Op, before: Copy, was: Ledger)
      requires before.Ok() && Shipped(op, before.f, before.mem, was)
      ensures Replays(before.mem, flippedIndexes, voControl.othello.mem)
    {
      hide FM.Filter.Ok, FM.Insert, FM.Delete, FM.Lookup, Replays, Shaped;
    }

    // ---- Updates as bytes ----

    /** A change travels as bytes; the client gets to see some of its flips. */
    method Deliver(c: Change, flips: seq<nat>) returns (received: Record)
      requires FitsIn(flips, WRAP32)
      ensures received == Record(c, Sent(flips))
    {
      hide BatchBytes, ParseBatch, FitsIn, Sent;
      ghost var cs := Changes([(c.k, c.v)], [c.action]);
      assert cs == [c];
      var bytes := EncodeBatchSummary([(c.k, c.v)], [c.action], flips);
      SingleDelta(cs, flips, []);
      assert bytes.value + [] == bytes.value;
      var got := DecodeBatchSummary(bytes.value);
      received := got.value.0[0];
    }

    /** The full update, made from the stored verifier, whatever the tracker has become since. */
    method SendFull(client: DassVerifier)
      requires Ready() && voData.vf != client.vf && voData.othello != client.othello
      modifies client.vf, client.othello
      ensures client.Held() == voData.Held()
    {
      hide FM.Filter.Ok, DataPlaneOthello.Shape, FE.CellsCounted;
      FullUpdate(voData, client, extras, []);
    }

    /** One operation, and its update sent to the client as bytes: a delta, or a full update after
        a rebuild.  (For a revocation the server sends a delta in any case, see
        `RevokeCertificate`.)  Of more than 255 flips the client gets to see only some. */
    method Step(op: Op, client: DassVerifier) returns (r: Outcome)
      requires Valid() && Apart(client) && client.Agrees(voControl) && Admits(op)
      modifies this, voControl, voControl.vf, voControl.othello, voControl.othello.connectivityForest
      modifies voData.vf, voData.othello, client.vf, client.othello
      ensures r == Kept <==> !old(NeedsRebuild(op))
      ensures r != Failed ==> Valid() && Book() == Apply(old(Book()), op)
      ensures r == Rebuilt ==> BuiltAt(Apply(old(Book()), op), old(voControl.othello.drawn))
      ensures r == Failed ==> StuckAt(Apply(old(Book()), op), old(voControl.othello.drawn))
      ensures r == Kept ==> Trails(client)
      ensures r == Rebuilt ==> client.Agrees(voControl)
      ensures r == Kept ==> voControl.othello == old(voControl.othello)
      ensures r == Rebuilt ==> fresh(voControl.othello) && fresh(voControl.othello.connectivityForest)
      ensures r != Failed ==> voControl.othello.drawn >= old(voControl.othello.drawn)
    {
      hide ControlPlaneOthello.Valid, FM.Filter.Ok, TM.Exact, After, ControlPlaneOthello.Shape, Sane, Shaped;
      hide CriotControl.StuckAt, CriotControl.BuiltAt, Ready, Admits, NeedsRebuild, Shipped, Apply, Informed, Trails;
      ghost var before, was := voControl.Held(), Book();
      WellInformed(op);
      r := Serve(op);
      if r == Kept {
        SendDelta(op, client, before, was);
      } else if r == Rebuilt {
        SendFull(client);
      }
    }

    /** The delta of an operation without rebuild. */
    method SendDelta(op: Op, client: DassVerifier, ghost before: Copy, ghost was: Ledger)
      requires Linked() && voControl.vf.Ok() && Apart(client) && before.Ok()
      requires Shipped(op, before.f, before.mem, was) && Informed(op, before, was)
      requires SameSeed(before.seed, before.ma, before.mb) && client.Held() == before
      modifies client.vf`t, client.vf`e, client.vf`filledCell, client.othello`mem
      ensures Trails(client)
    {
      hide FM.Filter.Ok, Replay, After, Sane, Words, Shipped, Informed, Sent, Dropped, Cancels, FitsIn;
      Leads(op, before, was, flippedIndexes);
      Leads(op, before, was, Sent(flippedIndexes));
      Arrived(op, before, was);
      NoSuchCell(before.mem, before.ma + before.mb, flippedIndexes);
      SentAndDropped(before.mem, flippedIndexes, voControl.othello.mem);
      var received := Deliver(ChangeOf(op), flippedIndexes);
      var _ := client.Dispatch(received);
    }

    // ---- Whole runs ----

    /** Server and client answer 1 on every positive and 0 on every negative key, and alike on
        every other. */
    ghost predicate BothExact(client: DassVerifier)
      requires Valid()
      reads this, voControl, voControl.vf, voControl.othello, voControl.othello.connectivityForest
      reads client, client.vf, client.othello
    {
      && ServerExact() && client.vf.Ok() && client.othello.Shape()
      && forall k :: client.Answer(k) == voControl.Answer(k)
    }

    ghost predicate ServerExact()
      requires Valid()
      reads this, voControl, voControl.vf, voControl.othello, voControl.othello.connectivityForest
    {
      && (forall k :: k in Book().pk ==> voControl.Answer(k) == 1)
      && (forall k :: k in Book().nk ==> voControl.Answer(k) == 0)
    }

    lemma ServerAnswers()
      requires Valid()
      ensures ServerExact()
    {
      hide ControlPlaneOthello.Valid, FM.Filter.Ok, TM.Exact, ControlPlaneOthello.Shape, DassTracker.Answer;
      forall k
        ensures k in Book().pk ==> voControl.Answer(k) == 1
        ensures k in Book().nk ==> voControl.Answer(k) == 0
      {
        voControl.AnswersExact(k);
      }
    }

    lemma BothAnswer(client: DassVerifier)
      requires Valid() && client.Agrees(voControl)
      ensures BothExact(client)
    {
      hide ControlPlaneOthello.Valid, FM.Filter.Ok, TM.Exact, ControlPlaneOthello.Shape, Words;
      hide DassTracker.Answer, DassVerifier.Answer;
      ServerAnswers();
      client.AgreementAnswers(voControl, 0);
      forall k ensures client.Answer(k) == voControl.Answer(k) {
        client.AgreementAnswers(voControl, k);
      }
    }

    /** Whole runs with updates handed over as they are.  Whatever operations callers may ask for,
        server and client stay exact and equal, unless a rebuild gets stuck. */
    method RunDirect(ops: seq<Op>, client: DassVerifier) returns (n: nat, stop: Stop)
      requires Valid() && Apart(client) && client.Agrees(voControl)
      modifies this, voControl, voControl.vf, voControl.othello, voControl.othello.connectivityForest
      modifies voData.vf, voData.othello, client.vf, client.othello
      ensures n <= |ops| && (stop == Finished <==> n == |ops|) && stop != Diverged && stop != Unbuilt
      ensures stop == Stuck ==> StuckOnceAt(ApplyAll(old(Book()), ops[..n + 1]), old(voControl.othello.drawn))
      ensures stop != Stuck ==> Valid() && Book() == ApplyAll(old(Book()), ops[..n]) && BothExact(client)
      ensures stop == NotAdmitted ==> !Admits(ops[n])
    {
      hide ControlPlaneOthello.Valid, FM.Filter.Ok, TM.Exact, CriotControl.StuckAt, CriotControl.BuiltAt;
      hide ControlPlaneOthello.Shape, Sane, Admits, NeedsRebuild, Apply, BothExact;
      ghost var book, from := Book(), voControl.othello.drawn;
      n := 0;
      while n < |ops|
        invariant n <= |ops|
        invariant Valid() && Apart(client) && client.Agrees(voControl) && Book() == ApplyAll(book, ops[..n])
        invariant voControl.othello == old(voControl.othello) || fresh(voControl.othello)
        invariant || voControl.othello.connectivityForest == old(voControl.othello.connectivityForest)
                  || fresh(voControl.othello.connectivityForest)
        invariant voControl.othello.drawn >= from
        decreases |ops| - n
      {
        ApplyNext(book, ops, n);
        if !Admits(ops[n]) {
          BothAnswer(client);
          return n, NotAdmitted;
        }
        var r := StepDirect(ops[n], client);
        if r == Failed {
          return n, Stuck;
        }
        n := n + 1;
      }
      BothAnswer(client);
      stop := Finished;
    }

    /** Whole runs with updates sent as bytes, full updates after every rebuild.  (For a revocation
        the server sends a delta even after a rebuild; `RevokeCertificate` says what comes of
        that.)  Server and client stay exact and equal as long as callers ask for what they may,
        no rebuild gets stuck, and no delta has flips that the client does not get to see and that
        do not cancel out; after such a delta the server still is exact, and the client lacks
        exactly those flips. */
    method Run(ops: seq<Op>, client: DassVerifier) returns (n: nat, stop: Stop)
      requires Valid() && Apart(client) && client.Agrees(voControl)
      modifies this, voControl, voControl.vf, voControl.othello, voControl.othello.connectivityForest
      modifies voData.vf, voData.othello, client.vf, client.othello
      ensures n <= |ops| && (stop == Finished <==> n == |ops|) && stop != Unbuilt
      ensures stop == Stuck ==> StuckOnceAt(ApplyAll(old(Book()), ops[..n + 1]), old(voControl.othello.drawn))
      ensures stop == Finished || stop == NotAdmitted ==>
                Valid() && Book() == ApplyAll(old(Book()), ops[..n]) && BothExact(client)
      ensures stop == NotAdmitted ==> !Admits(ops[n])
      ensures stop == Diverged ==>
                && Valid() && Book() == ApplyAll(old(Book()), ops[..n + 1]) && ServerExact()
                && Trails(client) && !Cancels(Dropped(flippedIndexes))
    {
      hide ControlPlaneOthello.Valid, FM.Filter.Ok, TM.Exact, CriotControl.StuckAt, CriotControl.BuiltAt;
      hide ControlPlaneOthello.Shape, Sane, Admits, NeedsRebuild, Apply, BothExact, ServerExact, Cancels, Dropped;
      ghost var book, from := Book(), voControl.othello.drawn;
      n := 0;
      while n < |ops|
        invariant n <= |ops|
        invariant Valid() && Apart(client) && client.Agrees(voControl) && Book() == ApplyAll(book, ops[..n])
        invariant voControl.othello == old(voControl.othello) || fresh(voControl.othello)
        invariant || voControl.othello.connectivityForest == old(voControl.othello.connectivityForest)
                  || fresh(voControl.othello.connectivityForest)
        invariant voControl.othello.drawn >= from
        decreases |ops| - n
      {
        ApplyNext(book, ops, n);
        if !Admits(ops[n]) {
          BothAnswer(client);
          return n, NotAdmitted;
        }
        var r := Step(ops[n], client);
        if r == Failed {
          return n, Stuck;
        }
        if r == Kept && !Cancels(Dropped(flippedIndexes)) {
          ServerAnswers();
          return n, Diverged;
        }
        n := n + 1;
      }
      BothAnswer(client);
      stop := Finished;
    }

    // ---- A client that comes later ----

    /** The changes since the last rebuild lead from the stored verifier to the server's state. */
    ghost predicate Logged(log: seq<Record>)
      reads this, voControl, voControl.vf, voControl.othello, voData.vf, voData.othello
    {
      && Ready() && voControl.vf.h == voData.vf.h && voControl.othello.hash == voData.othello.hash
      && AfterAll(voControl.setup.h, voControl.setup.hash, voData.Held(), log) == Some(voControl.Held())
    }

    /** The server alone, noting the changes since the last rebuild. */
    method ServeAll(ops: seq<Op>) returns (n: nat, stop: Stop, log: seq<Record>)
      requires Valid() && Stored()
      modifies this, voControl, voControl.vf, voControl.othello, voControl.othello.connectivityForest
      modifies voData.vf, voData.othello
      ensures n <= |ops| && (stop == Finished <==> n == |ops|) && stop != Diverged && stop != Unbuilt
      ensures stop == Stuck ==> StuckOnceAt(ApplyAll(old(Book()), ops[..n + 1]), old(voControl.othello.drawn))
      ensures stop != Stuck ==>
                Valid() && Book() == ApplyAll(old(Book()), ops[..n]) && ServerExact() && Logged(log)
      ensures stop == NotAdmitted ==> !Admits(ops[n])
    {
      hide ControlPlaneOthello.Valid, FM.Filter.Ok, TM.Exact, CriotControl.StuckAt, CriotControl.BuiltAt;
      hide ControlPlaneOthello.Shape, Sane, Admits, NeedsRebuild, Apply, ServerExact, CriotControl.Logged, Shipped;
      ghost var book, from := Book(), voControl.othello.drawn;
      n, log := 0, [];
      NothingLogged();
      while n < |ops|
        invariant n <= |ops|
        invariant Valid() && Logged(log) && Book() == ApplyAll(book, ops[..n])
        invariant voControl.othello == old(voControl.othello) || fresh(voControl.othello)
        invariant || voControl.othello.connectivityForest == old(voControl.othello.connectivityForest)
                  || fresh(voControl.othello.connectivityForest)
        invariant voControl.othello.drawn >= from
        decreases |ops| - n
      {
        ApplyNext(book, ops, n);
        if !Admits(ops[n]) {
          ServerAnswers();
          return n, NotAdmitted, log;
        }
        var r;
        r, log := ServeLogged(ops[n], log);
        if r == Failed {
          return n, Stuck, log;
        }
        n := n + 1;
      }
      ServerAnswers();
      stop := Finished;
    }

    lemma NothingLogged()
      requires Stored()
      ensures Logged([])
    {
    }

    method ServeLogged(op: Op, log: seq<Record>) returns (r: Outcome, log': seq<Record>)
      requires Valid() && Admits(op) && Logged(log)
      modifies this, voControl, voControl.vf, voControl.othello, voControl.othello.connectivityForest
      modifies voData.vf, voData.othello
      ensures r != Failed ==> Valid() && Book() == Apply(old(Book()), op) && Logged(log')
      ensures r == Failed ==> StuckAt(Apply(old(Book()), op), old(voControl.othello.drawn))
      ensures r == Kept ==> voControl.othello == old(voControl.othello)
      ensures r == Rebuilt ==> fresh(voControl.othello) && fresh(voControl.othello.connectivityForest)
      ensures r != Failed ==> voControl.othello.drawn >= old(voControl.othello.drawn)
    {
      hide ControlPlaneOthello.Valid, FM.Filter.Ok, TM.Exact, After, AfterAll, ControlPlaneOthello.Shape, Sane, Shaped;
      hide Replay, CriotControl.StuckAt, CriotControl.BuiltAt, Admits, NeedsRebuild, Shipped, Apply, Informed;
      hide FE.CellsCounted;
      ghost var before, was := voControl.Held(), Book();
      WellInformed(op);
      r := Serve(op);
      log' := [];
      if r == Kept {
        log' := log + [Record(ChangeOf(op), flippedIndexes)];
        Leads(op, before, was, flippedIndexes);
        Arrived(op, before, was);
        AfterPush(voControl.setup.h, voControl.setup.hash, voData.Held(), log, Record(ChangeOf(op), flippedIndexes));
      } else if r == Rebuilt {
        NothingLogged();
      }
    }

    /** A client that takes a full update at any time after a rebuild and is then fed all changes
        since that rebuild, as bytes, agrees with the server.  `all` is false when it is fed only
        up to a change with flips that it does not get to see and that do not cancel out. */
    method CatchUp(client: DassVerifier, log: seq<Record>) returns (all: bool)
      requires Valid() && Apart(client) && Logged(log)
      modifies client.vf, client.othello
      ensures all <==> forall r :: r in log ==> Cancels(Dropped(r.flips))
      ensures all ==> client.Agrees(voControl)
    {
      hide ControlPlaneOthello.Valid, FM.Filter.Ok, TM.Exact, After, AfterAll, ControlPlaneOthello.Shape, Sane, Shaped;
      hide Replay, Cancels, Dropped, Sent, FE.CellsCounted;
      SendFull(client);
      ghost var h, hash, start := voControl.setup.h, voControl.setup.hash, voData.Held();
      AfterNone(h, hash, start, log);
      for i := 0 to |log|
        invariant start.Ok() && AfterAll(h, hash, start, log[..i]) == Some(client.Held())
        invariant forall r :: r in log[..i] ==> Cancels(Dropped(r.flips))
        invariant client.vf.h == h && client.othello.hash == hash
      {
        if !Cancels(Dropped(log[i].flips)) {
          return false;
        }
        assert log[..i + 1] == log[..i] + [log[i]];
        AfterNext(h, hash, start, log, i);
        SentSuffices(h, hash, client.Held(), log[i].change, log[i].flips);
        FlipsTaken(h, hash, client.Held(), log[i]);
        var received := Deliver(log[i].change, log[i].flips);
        var _ := client.Dispatch(received);
      }
      assert log[..|log|] == log;
      all := true;
    }

    /** Afterwards it answers like the server. */
    method JoinLate(client: DassVerifier, log: seq<Record>) returns (all: bool)
      requires Valid() && Apart(client) && Logged(log)
      modifies client.vf, client.othello
      ensures Valid() && Logged(log) && ServerExact() && Book() == old(Book())
      ensures forall op :: Admits(op) == old(Admits(op))
      ensures all <==> forall r :: r in log ==> Cancels(Dropped(r.flips))
      ensures all ==> BothExact(client)
    {
      hide ControlPlaneOthello.Valid, FM.Filter.Ok, TM.Exact, ControlPlaneOthello.Shape, Sane, Shaped;
      hide Cancels, Dropped, CriotControl.Logged, BothExact, ServerExact, Admits;
      all := CatchUp(client, log);
      ServerAnswers();
      if all { BothAnswer(client); }
    }

    // ---- What the server does for a revocation ----

    /** `revokeCertificate` of the server: the delta goes out whatever `setValue` says.  Without a
        rebuild the client has what the server has, but for flips that it did not get to see.
        With one, the server is exact, but the client gets the sentinel for flips: it answers the
        key as revoked if and only if its filter accepts it and its old Othello bit for the key
        happened to be 1. */
    method RevokeCertificate(k: Key, client: DassVerifier) returns (r: Outcome)
      requires Valid() && Apart(client) && client.Agrees(voControl) && Admits(Set(k, 1))
      requires client.vf.Ok() && client.othello.Shape()
      modifies this, voControl, voControl.vf, voControl.othello, voControl.othello.connectivityForest
      modifies voData.vf, voData.othello, client.vf, client.othello
      ensures r == Kept <==> !old(NeedsRebuild(Set(k, 1)))
      ensures r != Failed ==> Valid() && Book() == Apply(old(Book()), Set(k, 1)) && ServerExact()
      ensures r == Rebuilt ==> BuiltAt(Apply(old(Book()), Set(k, 1)), old(voControl.othello.drawn))
      ensures r == Failed ==> StuckAt(Apply(old(Book()), Set(k, 1)), old(voControl.othello.drawn))
      ensures r == Kept ==> Trails(client)
      ensures r == Rebuilt ==>
                && client.vf.Ok() && client.othello.Shape()
                && var (f', status) := FM.Insert(client.vf.h, old(client.vf.View()), k);
                   && client.vf.View() == f' && client.othello.mem == old(client.othello.mem)
                   && (client.Answer(k) == 1 <==> FM.Lookup(client.vf.h, f', k) && old(client.othello.Query(k)) == 1)
                   && (status == 0 ==> FM.Lookup(client.vf.h, f', k))
    {
      hide ControlPlaneOthello.Valid, FM.Filter.Ok, FM.Insert, FM.Lookup, TM.Exact, Admits;
      hide ControlPlaneOthello.Shape, Sane, CriotControl.StuckAt, CriotControl.BuiltAt, Ready, NeedsRebuild, Shipped;
      hide DassVerifier.Answer, DataPlaneOthello.Query, Apply, ServerExact, Informed, Shaped, Trails;
      ghost var before, was := voControl.Held(), Book();
      var op := Set(k, 1);
      WellInformed(op);
      OnlyNegativesRebuild(k, client);
      r := Serve(op);
      if r == Failed {
        return;
      }
      ServerAnswers();
      if r == Rebuilt {
        DeliverSentinel(k, client);
      } else {
        SendDelta(op, client, before, was);
      }
    }

    /** A revocation that asks for a rebuild is of a key that was answered with 0. */
    lemma OnlyNegativesRebuild(k: Key, client: DassVerifier)
      requires Valid() && client.Agrees(voControl) && client.vf.Ok() && client.othello.Shape()
      ensures NeedsRebuild(Set(k, 1)) ==> client.Answer(k) == 0
    {
      hide ControlPlaneOthello.Valid, FM.Filter.Ok, FM.Insert, FM.Lookup, TM.Exact, ControlPlaneOthello.Shape, Words;
      hide DassVerifier.Answer, DassTracker.Answer, DassTracker.Overfull;
      client.AgreementAnswers(voControl, k);
      voControl.AnswersExact(k);
    }

    /** The sentinel travels as a list of one flip. */
    method DeliverSentinel(k: Key, client: DassVerifier)
      requires flippedIndexes == [SENTINEL] && client.vf.Ok() && client.othello.Shape() && client.Answer(k) == 0
      modifies client.vf`t, client.vf`e, client.vf`filledCell, client.othello`mem
      ensures client.vf.Ok() && client.othello.Shape()
      ensures var (f', status) := FM.Insert(client.vf.h, old(client.vf.View()), k);
              && client.vf.View() == f' && client.othello.mem == old(client.othello.mem)
              && (client.Answer(k) == 1 <==> FM.Lookup(client.vf.h, f', k) && old(client.othello.Query(k)) == 1)
              && (status == 0 ==> FM.Lookup(client.vf.h, f', k))
    {
      hide FM.Filter.Ok, FM.Insert, FM.Lookup, DassVerifier.Answer, DataPlaneOthello.Query, FE.Entries, FE.EntryOf;
      hide Words;
      SentinelFits();
      var received := Deliver(ChangeOf(Set(k, 1)), flippedIndexes);
      ghost var lost := client.RevokeBySentinel(received.change.k);
    }
  }

  lemma SentinelFits()
    ensures FitsIn([SENTINEL], WRAP32) && Sent([SENTINEL]) == [SENTINEL]
  {
  }

  lemma ApplyNext(l: Ledger, ops: seq<Op>, n: nat)
    requires n < |ops|
    ensures ApplyAll(l, ops[..n + 1]) == Apply(ApplyAll(l, ops[..n]), ops[n])
  {
    hide Apply;
    assert ops[..n + 1][..n] == ops[..n];
  }
}
