/** What a verifier holds, as a value, and what a delta makes of it. */
module Copies {
  import opened Wrappers
  import opened Bits
  import opened PackedArray
  import opened KeyGraphs
  import opened Codec
  import FM = FilterModel

  /** The single flip that means "rebuild". */
  const SENTINEL: nat := 0xffff_ffff

  /** Filter, Othello words, array sizes and hash seed. */
  datatype Copy = Copy(f: FM.Filter, mem: seq<nat>, ma: nat, mb: nat, seed: uint64) {
    ghost predicate Ok() {
      f.Ok() && Shaped(mem, ma, mb)
    }
  }

  ghost predicate Shaped(mem: seq<nat>, ma: nat, mb: nat) {
    && ma > 0 && mb > 0 && ma + mb + WORD - 1 < WRAP32
    && |mem| == WordsFor(1, ma + mb) && Words(mem)
  }

  /** The bit of a key. */
  function BitOf(hash: (uint64, Key) -> uint64, mem: seq<nat>, ma: nat, mb: nat, seed: uint64, k: Key): nat
    requires Shaped(mem, ma, mb)
  {
    var e := Indices(hash(seed, k), ma, mb);
    Xor(BitGet(mem, e.a), BitGet(mem, e.b))
  }

  function AnswerOf(h: FM.Hashes, hash: (uint64, Key) -> uint64, c: Copy, k: Key): nat
    requires c.Ok()
  {
    if FM.Lookup(h, c.f, k) then BitOf(hash, c.mem, c.ma, c.mb, c.seed, k) else 0
  }

  /** The flips are replayed, unless they ask for a rebuild. */
  ghost function Flipped(c: Copy, flips: seq<nat>): (r: Copy)
    requires c.Ok() && (flips != [SENTINEL] ==> CodesFit(c.mem, flips))
    ensures r.Ok()
  {
    if flips == [SENTINEL] then c
    else
      ReplayShaped(c.mem, c.ma, c.mb, flips);
      c.(mem := Replay(c.mem, flips))
  }

  lemma ReplayShaped(mem: seq<nat>, ma: nat, mb: nat, flips: seq<nat>)
    requires Shaped(mem, ma, mb) && CodesFit(mem, flips)
    ensures Shaped(Replay(mem, flips), ma, mb)
  {
    hide Words;
    ReplayKeepsWords(mem, flips);
  }

  /** What a change makes of a verifier.  `None`: the process exits, because its filter is full,
      or the flips name cells that the verifier does not have. */
  ghost function After(h: FM.Hashes, hash: (uint64, Key) -> uint64, c: Copy, r: Record): (next: Option<Copy>)
    requires c.Ok()
    ensures next.Some? ==> next.value.Ok()
  {
    hide FM.Filter.Ok, FM.Insert, FM.Delete, FM.Lookup, Shaped;
    var Change(action, k, v) := r.change;
    if r.flips != [SENTINEL] && !CodesFit(c.mem, r.flips) then None
    else if action == ADD_ACTION then
      if r.flips == [SENTINEL] then Some(c)
      else if v == 1 then
        var (f, status) := FM.Insert(h, c.f, k);
        if status == 1 then None else Some(Flipped(c.(f := f), r.flips))
      else if FM.Lookup(h, c.f, k) then Some(Flipped(c, r.flips))
      else Some(c)
    else if action == UNREVOKE_ACTION || action == REVOKE_ACTION then
      var was := AnswerOf(h, hash, c, k);
      if was == 1 && v == 0 then Some(Flipped(c.(f := FM.Delete(h, c.f, k).0), r.flips))
      else if was == 0 && v == 1 then Some(Flipped(c.(f := FM.Insert(h, c.f, k).0), r.flips))
      else Some(c)
    else Some(c)
  }

  /** Changes in turn. */
  ghost function AfterAll(h: FM.Hashes, hash: (uint64, Key) -> uint64, c: Copy, log: seq<Record>): (next: Option<Copy>)
    requires c.Ok()
    ensures next.Some? ==> next.value.Ok()
  {
    hide FM.Filter.Ok, Shaped, After;
    if log == [] then Some(c)
    else
      var before :- AfterAll(h, hash, c, log[..|log| - 1]);
      After(h, hash, before, log[|log| - 1])
  }

  lemma AfterNone(h: FM.Hashes, hash: (uint64, Key) -> uint64, c: Copy, log: seq<Record>)
    requires c.Ok()
    ensures AfterAll(h, hash, c, log[..0]) == Some(c)
  {
  }

  lemma AfterPush(h: FM.Hashes, hash: (uint64, Key) -> uint64, c: Copy, log: seq<Record>, r: Record)
    requires c.Ok() && AfterAll(h, hash, c, log).Some?
    ensures AfterAll(h, hash, c, log + [r]) == After(h, hash, AfterAll(h, hash, c, log).value, r)
  {
    hide FM.Filter.Ok, Shaped, After;
    assert (log + [r])[..|log|] == log;
  }

  lemma AfterNext(h: FM.Hashes, hash: (uint64, Key) -> uint64, c: Copy, log: seq<Record>, i: nat)
    requires c.Ok() && i < |log| && AfterAll(h, hash, c, log).Some?
    ensures AfterAll(h, hash, c, log[..i]).Some?
    ensures var before := AfterAll(h, hash, c, log[..i]).value;
            && AfterAll(h, hash, c, log[..i + 1]) == After(h, hash, before, log[i])
            && After(h, hash, before, log[i]).Some?
  {
    hide FM.Filter.Ok, Shaped, After;
    AfterPrefix(h, hash, c, log, i + 1);
    assert log[..i + 1][..i] == log[..i];
  }

  lemma {:induction false} AfterPrefix(h: FM.Hashes, hash: (uint64, Key) -> uint64, c: Copy, log: seq<Record>, i: nat)
    requires c.Ok() && i <= |log| && AfterAll(h, hash, c, log).Some?
    ensures AfterAll(h, hash, c, log[..i]).Some?
    decreases |log|
  {
    hide FM.Filter.Ok, Shaped, After;
    if i == |log| {
      assert log[..i] == log;
    } else {
      var before := log[..|log| - 1];
      AfterPrefix(h, hash, c, before, i);
      assert before[..i] == log[..i];
    }
  }

  /** A change that leads anywhere has flips of 32 bits. */
  lemma FlipsTaken(h: FM.Hashes, hash: (uint64, Key) -> uint64, c: Copy, r: Record)
    requires c.Ok() && After(h, hash, c, r).Some?
    ensures FitsIn(r.flips, WRAP32) && (r.flips != [SENTINEL] ==> CodesFit(c.mem, Sent(r.flips)))
    ensures Sent([SENTINEL]) == [SENTINEL]
  {
    hide FM.Filter.Ok, FM.Insert, FM.Delete, FM.Lookup, AnswerOf, Words, Flipped;
    if r.flips != [SENTINEL] { NoSuchCell(c.mem, c.ma + c.mb, r.flips); }
  }

  // ---- Deltas with many flips ----

  /** What was replayed so far and what was dropped make up the whole list; the dropped flips are
      of no account exactly when they cancel out. */
  lemma SentAndDropped(before: seq<nat>, flips: seq<nat>, after: seq<nat>)
    requires Words(before) && Replays(before, flips, after)
    ensures CodesFit(before, Sent(flips))
    ensures Replays(Replay(before, Sent(flips)), Dropped(flips), after)
    ensures Replay(before, Sent(flips)) == after <==> Cancels(Dropped(flips))
  {
    hide Replay, Words, Cancels;
    var mid := Replay(before, Sent(flips));
    assert flips == Sent(flips) + Dropped(flips);
    assert CodesFit(before, Sent(flips)) && CodesFit(before, Dropped(flips));
    ReplayConcat(before, Sent(flips), Dropped(flips));
    ReplayKeepsWords(before, Sent(flips));
    assert CodesFit(mid, Dropped(flips));
    ReplayCancels(mid, Dropped(flips));
  }

  /** Where the dropped flips cancel out, a verifier gets to the same state without them. */
  lemma SentSuffices(h: FM.Hashes, hash: (uint64, Key) -> uint64, c: Copy, change: Change, flips: seq<nat>)
    requires c.Ok() && After(h, hash, c, Record(change, flips)).Some? && Cancels(Dropped(flips))
    ensures After(h, hash, c, Record(change, Sent(flips))) == After(h, hash, c, Record(change, flips))
  {
    hide FM.Filter.Ok, FM.Insert, FM.Delete, FM.Lookup, AnswerOf, Replay, Cancels, Words;
    if flips == [SENTINEL] {
      assert Sent(flips) == flips;
    } else {
      SentAndDropped(c.mem, flips, Replay(c.mem, flips));
      NoSuchCell(c.mem, c.ma + c.mb, Sent(flips));
    }
  }

  /** Cells have numbers of 32 bits, and none has the sentinel's. */
  lemma NoSuchCell(mem: seq<nat>, n: nat, flips: seq<nat>)
    requires |mem| == WordsFor(1, n) && n + WORD - 1 < WRAP32 && CodesFit(mem, flips)
    ensures flips != [SENTINEL] && FitsIn(flips, WRAP32)
  {
    forall i | 0 <= i < |flips| ensures flips[i] < SENTINEL {
      assert CodeFits(mem, flips[i]);
    }
    assert |flips| == 1 ==> flips[0] != SENTINEL;
  }
}
