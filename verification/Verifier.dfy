/** The client side: a copy of the filter and of the Othello words, kept up to date by replaying
    what the tracker reports. */
module Verifiers {
  import opened Bits
  import opened PackedArray
  import opened ControlPlane
  import opened VacuumFilters
  import opened Trackers
  import opened Sizing
  import opened KeyGraphs
  import opened Wrappers
  import opened Codec
  import opened Copies
  import FM = FilterModel
  import FE = FilterEntries

  class DataPlaneOthello {
    const hash: (uint64, Key) -> uint64
    var mem: seq<nat>
    var ma: nat
    var mb: nat
    var seed: uint64

    constructor (hash: (uint64, Key) -> uint64)
      ensures this.hash == hash
    {
      this.hash := hash;
      mem, ma, mb, seed := [], 0, 0, 0;
    }

    ghost predicate Shape()
      reads this
    {
      Shaped(mem, ma, mb)
    }

    /** `query`. */
    function Query(k: Key): nat
      requires Shape()
      reads this
    {
      BitOf(hash, mem, ma, mb, seed, k)
    }

    /** `mem_value_flipping`. */
    method MemValueFlipping(flips: seq<nat>)
      requires CodesFit(mem, flips)
      modifies this`mem
      ensures Replays(old(mem), flips, mem)
    {
      ghost var was := mem;
      hide Replay, FlipAt;
      NoFlips(was);
      for i := 0 to |flips|
        invariant CodesFit(was, flips[..i]) && mem == Replay(was, flips[..i])
      {
        var indexCode := flips[i];
        var bucketIndex := indexCode / WORD;
        var entryIndex := indexCode % WORD;
        FlipsNext(was, flips, i);
        mem := mem[bucketIndex := Xor(mem[bucketIndex], ShlW(1, entryIndex))];
      }
      assert flips[..|flips|] == flips;
    }

    /** `fullSync`. */
    method FullSync(cp: ControlPlaneOthello)
      requires cp.hash == hash
      modifies this
      ensures Mirrors(cp)
    {
      mem, ma, mb, seed := cp.mem, cp.ma, cp.mb, cp.seed;
    }

    ghost predicate Mirrors(cp: ControlPlaneOthello)
      reads this, cp
    {
      hash == cp.hash && mem == cp.mem && ma == cp.ma && mb == cp.mb && seed == cp.seed
    }

    /** A mirror answers like the original, for every possible key. */
    lemma MirrorAnswers(cp: ControlPlaneOthello, k: Key)
      requires Mirrors(cp) && cp.Shape()
      ensures Shape() && Query(k) == cp.Query(k)
    {
      hide Words, Xor;
    }
  }

  lemma NoFlips(mem: seq<nat>)
    ensures CodesFit(mem, []) && Replay(mem, []) == mem
  {
  }

  lemma FlipsNext(mem: seq<nat>, flips: seq<nat>, i: nat)
    requires CodesFit(mem, flips) && i < |flips|
    ensures CodesFit(mem, flips[..i]) && CodesFit(mem, flips[..i + 1]) && flips[i] / WORD < |mem|
    ensures var was := Replay(mem, flips[..i]);
            Replay(mem, flips[..i + 1]) == was[flips[i] / WORD := Xor(was[flips[i] / WORD], ShlW(1, flips[i] % WORD))]
  {
    hide *;
    PrefixFits(mem, flips, i);
    ReplayAppend(mem, flips[..i], flips[i]);
    FlipAtIs(Replay(mem, flips[..i]), flips[i]);
  }

  lemma PrefixFits(mem: seq<nat>, flips: seq<nat>, i: nat)
    requires CodesFit(mem, flips) && i < |flips|
    ensures CodesFit(mem, flips[..i]) && CodeFits(mem, flips[i]) && flips[..i + 1] == flips[..i] + [flips[i]]
  {
  }

  lemma FlipAtIs(mem: seq<nat>, code: nat)
    ensures CodeFits(mem, code) <==> code / WORD < |mem|
    ensures CodeFits(mem, code) ==> FlipAt(mem, code) == mem[code / WORD := Xor(mem[code / WORD], ShlW(1, code % WORD))]
  {
  }

  class DassVerifier {
    const vf: VacuumFilter
    const othello: DataPlaneOthello

    constructor (setup: Setup)
      ensures vf.h == setup.h && othello.hash == setup.hash && fresh(vf) && fresh(othello)
    {
      vf := new VacuumFilter(setup.h);
      othello := new DataPlaneOthello(setup.hash);
    }

    function Held(): Copy
      reads vf, othello
    {
      Copy(vf.View(), othello.mem, othello.ma, othello.mb, othello.seed)
    }

    /** The client has the tracker's filter, generator state included, and its Othello words. */
    ghost predicate Agrees(t: DassTracker)
      reads this, vf, othello, t, t.vf, t.othello
    {
      vf.h == t.vf.h && othello.hash == t.othello.hash && Held() == t.Held()
    }

    /** `install`. */
    method Install(t: DassTracker)
      requires vf.h == t.vf.h && othello.hash == t.othello.hash && vf != t.vf
      modifies vf, othello
      ensures Agrees(t) && vf.memoryConsumption == t.vf.memoryConsumption
    {
      vf.Assign(t.vf);
      othello.FullSync(t.othello);
    }

    /** `operator=`. */
    method Assign(obj: DassVerifier)
      requires vf.h == obj.vf.h && othello.hash == obj.othello.hash && vf != obj.vf && othello != obj.othello
      modifies vf, othello
      ensures Held() == obj.Held()
    {
      vf.Assign(obj.vf);
      othello.mem, othello.ma, othello.mb, othello.seed := obj.othello.mem, obj.othello.ma, obj.othello.mb,
          obj.othello.seed;
    }

    /** `query`. */
    function Answer(k: Key): nat
      requires vf.Ok() && othello.Shape()
      reads this, vf, othello
    {
      AnswerOf(vf.h, othello.hash, Held(), k)
    }

    /** Agreement means the same answer for every possible key, known or not. */
    lemma AgreementAnswers(t: DassTracker, k: Key)
      requires Agrees(t) && t.vf.Ok() && t.othello.Valid()
      ensures vf.Ok() && othello.Shape() && Answer(k) == t.Answer(k)
    {
      hide FM.Filter.Ok, FM.Lookup, ControlPlaneOthello.Valid;
      OthelloShape(t.othello);
      othello.MirrorAnswers(t.othello, k);
    }

    /** What `insert` does: the filter gets every key that comes with value 1; the flips are
        replayed for such keys and for accepted ones, unless they ask for a rebuild. */
    twostate predicate Inserted(k: Key, v: nat, flips: seq<nat>, exited: bool)
      requires old(vf.Ok()) && vf.Ok()
      reads vf, othello
    {
      && (v == 1 && flips != [SENTINEL] ==> (vf.View(), Digit(exited)) == FM.Insert(vf.h, old(vf.View()), k))
      && (v != 1 || flips == [SENTINEL] ==> vf.View() == old(vf.View()) && !exited)
      && (flips == [SENTINEL] || exited || (v != 1 && !FM.Lookup(vf.h, vf.View(), k)) ==>
          othello.mem == old(othello.mem))
      && (flips != [SENTINEL] && !exited && (v == 1 || FM.Lookup(vf.h, vf.View(), k)) ==>
          Replays(old(othello.mem), flips, othello.mem))
    }

    /** What `setValue` does, decided by the old answer. */
    twostate predicate ValueSet(k: Key, v: nat, flips: seq<nat>)
      requires old(vf.Ok()) && old(othello.Shape()) && vf.Ok()
      reads this, vf, othello
    {
      var was := old(Answer(k));
      && (was == 1 && v == 0 ==> vf.View() == FM.Delete(vf.h, old(vf.View()), k).0)
      && (was == 0 && v == 1 ==> vf.View() == FM.Insert(vf.h, old(vf.View()), k).0)
      && (if (was == 1 && v == 0) || (was == 0 && v == 1) then
            if flips == [SENTINEL] then othello.mem == old(othello.mem)
                else Replays(old(othello.mem), flips, othello.mem)
          else vf.View() == old(vf.View()) && othello.mem == old(othello.mem))
    }

    /** `insert`; `exited` stands for the exit of the process when the filter is full. */
    method Insert(k: Key, v: nat, flips: seq<nat>) returns (exited: bool)
      requires vf.Ok() && (flips != [SENTINEL] ==> CodesFit(othello.mem, flips))
      modifies vf`t, vf`e, vf`filledCell, othello`mem
      ensures vf.Ok()
      ensures Inserted(k, v, flips, exited)
    {
      hide FM.Filter.Ok, FM.Insert, FM.Lookup, CodesFit, Replays, VacuumFilter.TookIn;
      InsertStatus(vf.h, vf.View(), k);
      ReplaysNothing(othello.mem);
      exited := false;
      if |flips| == 0 {
        if v == 1 {
          var r := vf.Insert(k);
          if r == 1 {
            return true;
          }
        }
      } else if |flips| == 1 && flips[0] == SENTINEL {
      } else if v == 1 {
        var r := vf.Insert(k);
        if r == 1 {
          return true;
        }
        othello.MemValueFlipping(flips);
      } else {
        var accepted := vf.Lookup(k);
        if accepted {
          othello.MemValueFlipping(flips);
        }
      }
    }

    /** `setValue`. */
    method SetValue(k: Key, v: nat, flips: seq<nat>)
      requires vf.Ok() && othello.Shape() && (flips != [SENTINEL] ==> CodesFit(othello.mem, flips))
      modifies vf`t, vf`e, vf`filledCell, othello`mem
      ensures vf.Ok()
      ensures ValueSet(k, v, flips)
    {
      hide FM.Filter.Ok, FM.Insert, FM.Delete, FM.Lookup, CodesFit, Replays, Words, VacuumFilter.TookIn;
      ReplaysNothing(othello.mem);
      var accepted := vf.Lookup(k);
      var was := if accepted then othello.Query(k) else 0;
      if was == v {
        return;
      } else if was == 1 && v == 0 {
        var _ := vf.Del(k);
        Patch(flips);
      } else if was == 0 && v == 1 {
        var _ := vf.Insert(k);
        Patch(flips);
      }
    }

    /** The flips are replayed unless there are none or they ask for a rebuild. */
    method Patch(flips: seq<nat>)
      requires flips != [SENTINEL] ==> CodesFit(othello.mem, flips)
      modifies othello`mem
      ensures if flips == [SENTINEL] then othello.mem == old(othello.mem)
          else Replays(old(othello.mem), flips, othello.mem)
    {
      hide CodesFit, Replays;
      ReplaysNothing(othello.mem);
      if |flips| > 0 {
        if |flips| == 1 && flips[0] == SENTINEL {
          return;
        }
        othello.MemValueFlipping(flips);
      }
    }

    /** The end of `decode_sub_summary`: the action byte says what to do with the change. */
    method Dispatch(r: Record) returns (exited: bool)
      requires vf.Ok() && othello.Shape() && (r.flips != [SENTINEL] ==> CodesFit(othello.mem, r.flips))
      modifies vf`t, vf`e, vf`filledCell, othello`mem
      ensures vf.Ok()
      ensures r.change.action == 0 ==> Inserted(r.change.k, r.change.v, r.flips, exited)
      ensures r.change.action == 2 || r.change.action == 3 ==> ValueSet(r.change.k, r.change.v, r.flips)
      ensures r.change.action == 1 || r.change.action > 3 ==>
                vf.View() == old(vf.View()) && othello.mem == old(othello.mem)
      ensures After(vf.h, othello.hash, old(Held()), r) == if exited then None else Some(Held())
    {
      hide FM.Filter.Ok, FM.Insert, FM.Delete, FM.Lookup, CodesFit, Replay, Words, AnswerOf;
      exited := false;
      if r.change.action == ADD_ACTION {
        exited := Insert(r.change.k, r.change.v, r.flips);
      } else if r.change.action == UNREVOKE_ACTION || r.change.action == REVOKE_ACTION {
        SetValue(r.change.k, r.change.v, r.flips);
      }
    }

    /** A revocation whose flips are the sentinel: the filter gets the key, the Othello words stay.
        So the key is answered as revoked if and only if the filter now accepts it and its old
        Othello bit happened to be 1.  The filter does accept it when its insertion succeeds; when
        it fails, unless the entry lost was the key's own and there was no other. */
    method RevokeBySentinel(k: Key) returns (ghost lost: FE.Entry)
      requires vf.Ok() && othello.Shape() && Answer(k) == 0
      modifies vf`t, vf`e, vf`filledCell, othello`mem
      ensures vf.Ok() && othello.Shape() && othello.mem == old(othello.mem)
      ensures vf.View() == FM.Insert(vf.h, old(vf.View()), k).0
      ensures Answer(k) == 1 <==> FM.Lookup(vf.h, vf.View(), k) && old(othello.Query(k)) == 1
      ensures FM.Insert(vf.h, old(vf.View()), k).1 == 0 ==> FM.Lookup(vf.h, vf.View(), k)
      ensures FM.Insert(vf.h, old(vf.View()), k).1 == 1 ==>
                && FE.Entries(vf.h, vf.View()) + multiset{lost}
                   == FE.Entries(vf.h, old(vf.View())) + multiset{FE.EntryOf(vf.h, old(vf.View()), k)}
                && (FM.Lookup(vf.h, vf.View(), k) <==>
                      FM.Lookup(vf.h, old(vf.View()), k) || lost != FE.EntryOf(vf.h, old(vf.View()), k))
    {
      hide FM.Filter.Ok, FM.Insert, FM.Delete, FM.Lookup, CodesFit, Replays, Words, FE.Entries, FE.EntryOf;
      ghost var f := vf.View();
      lost := FE.LookupAfterInsert(vf.h, f, k);
      var _ := Dispatch(Record(Change(REVOKE_ACTION, k, 1), [SENTINEL]));
      BitOrNot(k);
    }

    lemma BitOrNot(k: Key)
      requires othello.Shape()
      ensures othello.Query(k) <= 1
    {
      hide Words;
      var e := Indices(othello.hash(othello.seed, k), othello.ma, othello.mb);
      XorDigits(WordBit(othello.mem, e.a), WordBit(othello.mem, e.b));
    }
  }
}
