/** When the tracker is exact, as a statement about values: the filter holds one fingerprint
    per positive key, the Othello holds the positive keys and the false positives, and two
    tables list every negative key on both of its rows. */
module TrackerModel {
  import opened Bits
  import opened FilterModel
  import opened FilterEntries

  /** `position_pair`: the two rows of a key. */
  function PositionPair(h: Hashes, f: Filter, k: Key): (r: (nat, nat))
    requires f.Ok()
    ensures r.0 < f.n && r.1 < f.n
  {
    hide Filter.Ok, Filter.Alt, Filter.Position, Filter.Fingerprint, Pow2;
    f.Sizes();
    var x := h.mix(k);
    (f.Position(x), f.Alt(h, f.Position(x), f.Fingerprint(h, x)))
  }

  ghost predicate OnRow(h: Hashes, f: Filter, k: Key, r: nat)
    requires f.Ok()
  {
    r == PositionPair(h, f, k).0 || r == PositionPair(h, f, k).1
  }

  /** The two rows differ, and keys with the same entry have the same rows. */
  lemma RowsOfEntry(h: Hashes, f: Filter, a: Key, b: Key)
    requires f.Ok()
    ensures PositionPair(h, f, a).0 != PositionPair(h, f, a).1
    ensures EntryOf(h, f, a) == EntryOf(h, f, b) ==> forall r: nat :: OnRow(h, f, a, r) <==> OnRow(h, f, b, r)
  {
    hide Filter.Ok, Filter.Alt, Filter.Position, Filter.Fingerprint, EntryAt, Pow2;
    f.Sizes();
    var x, y := h.mix(a), h.mix(b);
    var p, q := f.Position(x), f.Position(y);
    var fa, fb := f.Fingerprint(h, x), f.Fingerprint(h, y);
    f.AltBack(h, p, fa);
    SameEntry(h, f, p, fa, q, fb);
  }

  lemma RowsFixed(h: Hashes, f: Filter, f': Filter, k: Key)
    requires f.Ok() && f'.Ok() && SameGeometry(f, f')
    ensures PositionPair(h, f', k) == PositionPair(h, f, k)
    ensures EntryOf(h, f', k) == EntryOf(h, f, k)
  {
    hide Filter.Ok, Filter.Alt, EntryAt, EntryOf, Pow2;
    EntryOfFixed(h, f, f', k);
    f.Sizes();
    var x := h.mix(k);
    EntryFixed(h, f, f', f.Position(x), f.Fingerprint(h, x));
  }

  // ---- The filter and the positive keys ----

  ghost function Sharing(h: Hashes, f: Filter, s: set<Key>, e: Entry): set<Key>
    requires f.Ok()
  {
    set k | k in s && EntryOf(h, f, k) == e
  }

  /** The filter stores one entry for each positive key. */
  ghost predicate EntriesMatch(h: Hashes, f: Filter, pk: set<Key>)
    requires f.Ok()
  {
    forall e :: Entries(h, f)[e] == |Sharing(h, f, pk, e)|
  }

  /** `lookup` accepts exactly the keys whose entry some positive key shares. */
  lemma Accepts(h: Hashes, f: Filter, pk: set<Key>, x: Key)
    requires f.Ok() && EntriesMatch(h, f, pk)
    ensures Lookup(h, f, x) <==> exists y :: y in pk && EntryOf(h, f, y) == EntryOf(h, f, x)
    ensures x in pk ==> Lookup(h, f, x)
  {
    hide Filter.Ok, Lookup, EntryOf, Entries;
    LookupExact(h, f, x);
    var e := EntryOf(h, f, x);
    assert Entries(h, f)[e] == |Sharing(h, f, pk, e)|;
    if y :| y in pk && EntryOf(h, f, y) == e {
      assert y in Sharing(h, f, pk, e);
    }
    if Sharing(h, f, pk, e) != {} {
      var y :| y in Sharing(h, f, pk, e);
      assert y in pk && EntryOf(h, f, y) == e;
    } else {
      assert |Sharing(h, f, pk, e)| == 0;
    }
  }

  lemma NothingMatches(h: Hashes, f: Filter)
    requires f.Ok() && Entries(h, f) == multiset{} && f.filledCell == 0
    ensures EntriesMatch(h, f, {}) && CellsCounted(f)
  {
    hide Filter.Ok, EntryOf, EntriesUpTo, CellsUpTo;
    EntriesAreCells(h, f, f.n);
    forall e ensures Sharing(h, f, {}, e) == {} {
    }
  }

  /** The entries of a filter of the same geometry are the same. */
  lemma SharingFixed(h: Hashes, f: Filter, f': Filter, s: set<Key>, e: Entry)
    requires f.Ok() && f'.Ok() && SameGeometry(f, f')
    ensures Sharing(h, f', s, e) == Sharing(h, f, s, e)
  {
    hide Filter.Ok, EntryOf;
    forall x ensures EntryOf(h, f', x) == EntryOf(h, f, x) { EntryOfFixed(h, f, f', x); }
  }

  /** The keys of an entry once `k` has joined or left. */
  lemma SharingMore(h: Hashes, f: Filter, pk: set<Key>, k: Key, e: Entry)
    requires f.Ok() && k !in pk
    ensures |Sharing(h, f, pk + {k}, e)| == |Sharing(h, f, pk, e)| + (if e == EntryOf(h, f, k) then 1 else 0)
  {
    hide Filter.Ok, EntryOf;
    var before := Sharing(h, f, pk, e);
    assert Sharing(h, f, pk + {k}, e) == if e == EntryOf(h, f, k) then before + {k} else before;
    assert k !in before;
  }

  lemma AddedMatches(h: Hashes, f: Filter, f': Filter, pk: set<Key>, k: Key)
    requires f.Ok() && f'.Ok() && EntriesMatch(h, f, pk) && k !in pk
    requires Added(h, f, EntryOf(h, f, k), (f', 0))
    ensures EntriesMatch(h, f', pk + {k})
  {
    hide Filter.Ok, EntryOf, Entries, Sharing;
    forall e ensures Entries(h, f')[e] == |Sharing(h, f', pk + {k}, e)| {
      assert Entries(h, f)[e] == |Sharing(h, f, pk, e)|;
      SharingFixed(h, f, f', pk + {k}, e);
      SharingMore(h, f, pk, k, e);
    }
  }

  lemma RemovedMatches(h: Hashes, f: Filter, f': Filter, found: bool, pk: set<Key>, k: Key)
    requires f.Ok() && f'.Ok() && EntriesMatch(h, f, pk) && k in pk
    requires Removed(h, f, EntryOf(h, f, k), (f', found))
    ensures EntriesMatch(h, f', pk - {k})
  {
    hide Filter.Ok, EntryOf, Entries, Sharing;
    forall e ensures Entries(h, f')[e] == |Sharing(h, f', pk - {k}, e)| {
      assert Entries(h, f)[e] == |Sharing(h, f, pk, e)|;
      SharingFixed(h, f, f', pk - {k}, e);
      SharingMore(h, f, pk - {k}, k, e);
      assert pk - {k} + {k} == pk;
    }
  }

  // ---- The tables of negative keys ----

  /** Row `r` lists exactly the keys of `s` that belong there, each once. */
  ghost predicate RowHolds(h: Hashes, f: Filter, row: seq<Key>, s: set<Key>, r: nat)
    requires f.Ok()
  {
    forall x :: multiset(row)[x] == if x in s && OnRow(h, f, x, r) then 1 else 0
  }

  /** Every key of `s` is listed once on each of its two rows, and nothing else is. */
  ghost predicate Tabled(h: Hashes, f: Filter, t: seq<seq<Key>>, s: set<Key>)
    requires f.Ok()
  {
    |t| == f.n && forall r :: 0 <= r < |t| ==> RowHolds(h, f, t[r], s, r)
  }

  ghost function Rejected(h: Hashes, f: Filter, s: set<Key>): set<Key>
    requires f.Ok()
  {
    set x | x in s && !Lookup(h, f, x)
  }

  ghost function Accepted(h: Hashes, f: Filter, s: set<Key>): set<Key>
    requires f.Ok()
  {
    set x | x in s && Lookup(h, f, x)
  }

  /** The keys of a row that `lookup` answers with `want`. */
  ghost function Select(h: Hashes, f: Filter, s: seq<Key>, want: bool): seq<Key>
    requires f.Ok()
  {
    if s == [] then []
    else
      var x := s[|s| - 1];
      Select(h, f, s[..|s| - 1], want) + (if Lookup(h, f, x) == want then [x] else [])
  }

  lemma SelectNext(h: Hashes, f: Filter, s: seq<Key>, j: nat, want: bool)
    requires f.Ok() && j < |s|
    ensures Select(h, f, s[..j + 1], want) == Select(h, f, s[..j], want)
        + (if Lookup(h, f, s[j]) == want then [s[j]] else [])
  {
    hide Filter.Ok, Lookup;
    assert s[..j + 1][..j] == s[..j];
  }

  lemma SelectLast(h: Hashes, f: Filter, s: seq<Key>, want: bool)
    requires f.Ok() && s != []
    ensures var (before, x) := (Select(h, f, s[..|s| - 1], want), s[|s| - 1]);
            Select(h, f, s, want) == if Lookup(h, f, x) == want then before + [x] else before
  {
    hide Filter.Ok, Lookup;
    NothingAppended(Select(h, f, s[..|s| - 1], want));
  }

  lemma {:induction false} Selected(h: Hashes, f: Filter, s: seq<Key>, want: bool, x: Key)
    requires f.Ok()
    ensures multiset(Select(h, f, s, want))[x] == if Lookup(h, f, x) == want then multiset(s)[x] else 0
  {
    hide Filter.Ok, Lookup;
    if s != [] {
      hide Select;
      var n := |s| - 1;
      Selected(h, f, s[..n], want, x);
      SelectLast(h, f, s, want);
      LastPushed(s);
      CountPushed(s[..n], s[n], x);
      CountPushed(Select(h, f, s[..n], want), s[n], x);
    }
  }

  lemma LastPushed(s: seq<Key>)
    requires s != []
    ensures s[..|s| - 1] + [s[|s| - 1]] == s
  {
  }

  ghost function Answering(h: Hashes, f: Filter, s: set<Key>, want: bool): set<Key>
    requires f.Ok()
  {
    set x | x in s && Lookup(h, f, x) == want
  }

  ghost predicate OnlyRows(h: Hashes, f: Filter, x: Key, p: nat, q: nat)
    requires f.Ok()
  {
    forall r :: OnRow(h, f, x, r) <==> r == p || r == q
  }

  /** Moving the keys that `lookup` answers with `want` from one table to the other on two
      rows moves them altogether, because they have no other rows. */
  lemma MovedTables(h: Hashes, f: Filter, f': Filter, p: nat, q: nat, want: bool,
                    a: seq<seq<Key>>, sa: set<Key>, b: seq<seq<Key>>, sb: set<Key>)
    requires f.Ok() && f'.Ok() && SameGeometry(f, f') && p < f.n && q < f.n && p != q
    requires Tabled(h, f, a, sa) && Tabled(h, f, b, sb) && sa !! sb
    requires forall x :: x in sa && Lookup(h, f', x) == want ==> OnlyRows(h, f, x, p, q)
    ensures var moved := Answering(h, f', sa, want);
            && Tabled(h, f', a[p := Select(h, f', a[p], !want)][q := Select(h, f', a[q], !want)], sa - moved)
            && Tabled(h, f', b[p := b[p] + Select(h, f', a[p], want)][q := b[q] + Select(h, f', a[q], want)],
                sb + moved)
  {
    hide Filter.Ok, Lookup, PositionPair, Select;
    var moved := Answering(h, f', sa, want);
    var a' := a[p := Select(h, f', a[p], !want)][q := Select(h, f', a[q], !want)];
    var b' := b[p := b[p] + Select(h, f', a[p], want)][q := b[q] + Select(h, f', a[q], want)];
    forall r | 0 <= r < |a| ensures RowHolds(h, f', a'[r], sa - moved, r) && RowHolds(h, f', b'[r], sb + moved, r) {
      assert RowHolds(h, f, a[r], sa, r) && RowHolds(h, f, b[r], sb, r);
      forall x
        ensures multiset(a'[r])[x] == (if x in sa - moved && OnRow(h, f', x, r) then 1 else 0)
        ensures multiset(b'[r])[x] == (if x in sb + moved && OnRow(h, f', x, r) then 1 else 0)
      {
        RowsFixed(h, f, f', x);
        assert OnRow(h, f', x, r) <==> OnRow(h, f, x, r);
        assert multiset(a[r])[x] == (if x in sa && OnRow(h, f, x, r) then 1 else 0);
        if r == p || r == q {
          Selected(h, f', a[r], want, x);
          Selected(h, f', a[r], !want, x);
        }
      }
    }
  }

  /** `erase(remove(...))`: every copy of `k` goes. */
  function Without(s: seq<Key>, k: Key): (r: seq<Key>) {
    if s == [] then [] else Without(s[..|s| - 1], k) + (if s[|s| - 1] == k then [] else [s[|s| - 1]])
  }

  /** `push_back` on both rows. */
  function Listed(t: seq<seq<Key>>, p: nat, q: nat, k: Key): (r: seq<seq<Key>>)
    requires p < |t| && q < |t|
    ensures |r| == |t|
    ensures p != q ==> r == t[p := t[p] + [k]][q := t[q] + [k]]
  {
    var t1 := t[p := t[p] + [k]];
    t1[q := t1[q] + [k]]
  }

  /** `erase(remove(...))` on both rows. */
  function Unlisted(t: seq<seq<Key>>, p: nat, q: nat, k: Key): (r: seq<seq<Key>>)
    requires p < |t| && q < |t|
    ensures |r| == |t|
    ensures p != q ==> r == t[p := Without(t[p], k)][q := Without(t[q], k)]
  {
    var t1 := t[p := Without(t[p], k)];
    t1[q := Without(t1[q], k)]
  }

  lemma CountPushed(s: seq<Key>, k: Key, x: Key)
    ensures multiset(s + [k])[x] == multiset(s)[x] + (if x == k then 1 else 0)
  {
  }

  /** A new key on both of its rows. */
  lemma ListedTable(h: Hashes, f: Filter, t: seq<seq<Key>>, s: set<Key>, k: Key)
    requires f.Ok() && Tabled(h, f, t, s) && k !in s
    ensures var (p, q) := PositionPair(h, f, k);
            Tabled(h, f, Listed(t, p, q, k), s + {k})
  {
    hide Filter.Ok, PositionPair;
    RowsOfEntry(h, f, k, k);
    var (p, q) := PositionPair(h, f, k);
    var t' := Listed(t, p, q, k);
    forall r | 0 <= r < |t| ensures RowHolds(h, f, t'[r], s + {k}, r) {
      assert RowHolds(h, f, t[r], s, r);
      forall x ensures multiset(t'[r])[x] == (if x in s + {k} && OnRow(h, f, x, r) then 1 else 0) {
        CountPushed(t[r], k, x);
      }
    }
  }

  lemma WithoutLast(s: seq<Key>, k: Key)
    requires s != []
    ensures var (before, x) := (Without(s[..|s| - 1], k), s[|s| - 1]);
            Without(s, k) == if x == k then before else before + [x]
  {
    NothingAppended(Without(s[..|s| - 1], k));
  }

  lemma {:induction false} WithoutCounts(s: seq<Key>, k: Key, x: Key)
    ensures multiset(Without(s, k))[x] == if x == k then 0 else multiset(s)[x]
  {
    if s != [] {
      hide Without;
      var n := |s| - 1;
      WithoutCounts(s[..n], k, x);
      WithoutLast(s, k);
      LastPushed(s);
      CountPushed(s[..n], s[n], x);
      CountPushed(Without(s[..n], k), s[n], x);
    }
  }

  lemma UnlistedTable(h: Hashes, f: Filter, t: seq<seq<Key>>, s: set<Key>, k: Key)
    requires f.Ok() && Tabled(h, f, t, s)
    ensures var (p, q) := PositionPair(h, f, k);
            Tabled(h, f, Unlisted(t, p, q, k), s - {k})
  {
    hide Filter.Ok, PositionPair, Without;
    RowsOfEntry(h, f, k, k);
    var (p, q) := PositionPair(h, f, k);
    var t' := Unlisted(t, p, q, k);
    forall r | 0 <= r < |t| ensures RowHolds(h, f, t'[r], s - {k}, r) {
      assert RowHolds(h, f, t[r], s, r);
      forall x ensures multiset(t'[r])[x] == (if x in s - {k} && OnRow(h, f, x, r) then 1 else 0) {
        if r == p || r == q { WithoutCounts(t[r], k, x); }
      }
    }
  }

  // ---- Exactness ----

  /** The Othello holds the positive keys and the negative keys the filter accepts. */
  ghost predicate KeysMatch(h: Hashes, f: Filter, contents: map<Key, nat>, pk: set<Key>, nk: set<Key>)
    requires f.Ok()
  {
    forall k :: k in contents <==> k in pk || (k in nk && Lookup(h, f, k))
  }

  ghost predicate ValuesMatch(contents: map<Key, nat>, pk: set<Key>) {
    forall k :: k in contents ==> (Bit(contents[k], 0) <==> k in pk)
  }

  ghost predicate Exact(h: Hashes, f: Filter, contents: map<Key, nat>, pk: set<Key>, nk: set<Key>,
                        tnk: seq<seq<Key>>, fpk: seq<seq<Key>>) {
    && f.Ok() && pk !! nk
    && EntriesMatch(h, f, pk) && CellsCounted(f)
    && KeysMatch(h, f, contents, pk, nk)
    && ValuesMatch(contents, pk)
    && Tabled(h, f, tnk, Rejected(h, f, nk))
    && Tabled(h, f, fpk, Accepted(h, f, nk))
  }

  lemma ExactOk(h: Hashes, f: Filter, c: map<Key, nat>, pk: set<Key>, nk: set<Key>, tnk: seq<seq<Key>>,
      fpk: seq<seq<Key>>)
    requires Exact(h, f, c, pk, nk, tnk, fpk)
    ensures f.Ok() && pk !! nk && |tnk| == |fpk| == f.n
  {
    hide Filter.Ok;
  }

  lemma ExactCounted(h: Hashes, f: Filter, c: map<Key, nat>, pk: set<Key>, nk: set<Key>, tnk: seq<seq<Key>>,
      fpk: seq<seq<Key>>)
    requires Exact(h, f, c, pk, nk, tnk, fpk)
    ensures f.Ok() && CellsCounted(f)
  {
    hide Filter.Ok;
  }

  /** What exactness is for: a query answers 1 on the positive keys and 0 on the negative
      ones.  `parity` is what the Othello answers for its own keys. */
  lemma ExactAnswers(h: Hashes, f: Filter, contents: map<Key, nat>, pk: set<Key>, nk: set<Key>,
                     tnk: seq<seq<Key>>, fpk: seq<seq<Key>>, k: Key)
    requires Exact(h, f, contents, pk, nk, tnk, fpk)
    ensures k in pk ==> Lookup(h, f, k) && k in contents && Bit(contents[k], 0)
    ensures k in nk ==> !Lookup(h, f, k) || (k in contents && !Bit(contents[k], 0))
  {
    hide Filter.Ok, Lookup, EntriesMatch, Tabled, EntryOf, Bit;
    Accepts(h, f, pk, k);
  }

  /** With one more positive key, the keys with its entry are accepted too, and no others. */
  lemma AcceptChange(h: Hashes, f: Filter, f': Filter, pk: set<Key>, k: Key, x: Key)
    requires f.Ok() && f'.Ok() && SameGeometry(f, f')
    requires EntriesMatch(h, f, pk) && EntriesMatch(h, f', pk + {k})
    ensures Lookup(h, f', x) <==> Lookup(h, f, x) || EntryOf(h, f, x) == EntryOf(h, f, k)
  {
    hide Filter.Ok, Lookup, EntriesMatch, EntryOf;
    forall y ensures EntryOf(h, f', y) == EntryOf(h, f, y) { EntryOfFixed(h, f, f', y); }
    Accepts(h, f, pk, x);
    Accepts(h, f', pk + {k}, x);
    assert k in pk + {k};
  }

  /** Where a key sits whose answer has changed. */
  lemma ChangedRows(h: Hashes, f: Filter, f': Filter, pk: set<Key>, k: Key, x: Key)
    requires f.Ok() && f'.Ok() && SameGeometry(f, f')
    requires EntriesMatch(h, f, pk) && EntriesMatch(h, f', pk + {k})
    ensures Lookup(h, f, x) ==> Lookup(h, f', x)
    ensures !Lookup(h, f, x) && Lookup(h, f', x) ==>
              OnlyRows(h, f, x, PositionPair(h, f, k).0, PositionPair(h, f, k).1)
                  && OnlyRows(h, f', x, PositionPair(h, f, k).0, PositionPair(h, f, k).1)
  {
    hide Filter.Ok, Lookup, EntriesMatch, EntryOf, PositionPair;
    AcceptChange(h, f, f', pk, k, x);
    RowsOfEntry(h, f, k, x);
    RowsFixed(h, f, f', x);
    assert forall r :: OnRow(h, f', x, r) <==> OnRow(h, f, x, r);
    assert forall r :: OnRow(h, f, k, r) <==> r == PositionPair(h, f, k).0 || r == PositionPair(h, f, k).1;
  }

  lemma AnswersMoved(h: Hashes, f: Filter, f': Filter, nk: set<Key>)
    requires f.Ok() && f'.Ok()
    requires forall x :: Lookup(h, f, x) ==> Lookup(h, f', x)
    ensures var moved := Answering(h, f', Rejected(h, f, nk), true);
            Rejected(h, f, nk) - moved == Rejected(h, f', nk) && Accepted(h, f, nk) + moved == Accepted(h, f', nk)
    ensures var moved := Answering(h, f, Accepted(h, f', nk), false);
            Accepted(h, f', nk) - moved == Accepted(h, f, nk) && Rejected(h, f', nk) + moved == Rejected(h, f, nk)
    ensures Rejected(h, f, nk) !! Accepted(h, f, nk) && Rejected(h, f', nk) !! Accepted(h, f', nk)
  {
    hide Filter.Ok, Lookup;
  }

  /** The tables after the filter has come to accept the entry of `k`. */
  lemma GrownTables(h: Hashes, f: Filter, f': Filter, pk: set<Key>, k: Key, nk: set<Key>, tnk: seq<seq<Key>>,
      fpk: seq<seq<Key>>)
    requires f.Ok() && f'.Ok() && SameGeometry(f, f')
    requires EntriesMatch(h, f, pk) && EntriesMatch(h, f', pk + {k})
    requires Tabled(h, f, tnk, Rejected(h, f, nk)) && Tabled(h, f, fpk, Accepted(h, f, nk))
    ensures var (p, q) := PositionPair(h, f, k);
            && p != q
            && Tabled(h, f', tnk[p := Select(h, f', tnk[p], false)][q := Select(h, f', tnk[q], false)],
                Rejected(h, f', nk))
            && Tabled(h, f', fpk[p := fpk[p] + Select(h, f', tnk[p], true)][q := fpk[q] + Select(h, f', tnk[q], true)],
                Accepted(h, f', nk))
  {
    assert |tnk| == |fpk| == f.n;
    RowsOfEntry(h, f, k, k);
    hide Filter.Ok, Lookup, EntriesMatch, Tabled, EntryOf, Select, PositionPair, OnlyRows, OnRow, Rejected, Accepted;
    hide Answering;
    var (p, q) := PositionPair(h, f, k);
    forall x ensures Lookup(h, f, x) ==> Lookup(h, f', x) {
      ChangedRows(h, f, f', pk, k, x);
    }
    AnswersMoved(h, f, f', nk);
    forall x | x in Rejected(h, f, nk) && Lookup(h, f', x) == true ensures OnlyRows(h, f, x, p, q) {
      ChangedRows(h, f, f', pk, k, x);
      InRejected(h, f, nk, x);
    }
    MovedTables(h, f, f', p, q, true, tnk, Rejected(h, f, nk), fpk, Accepted(h, f, nk));
  }

  lemma InRejected(h: Hashes, f: Filter, nk: set<Key>, x: Key)
    requires f.Ok()
    ensures x in Rejected(h, f, nk) <==> x in nk && !Lookup(h, f, x)
    ensures x in Accepted(h, f, nk) <==> x in nk && Lookup(h, f, x)
  {
  }

  /** The tables after the filter may have stopped accepting the entry of `k`. */
  lemma ShrunkTables(h: Hashes, f: Filter, f': Filter, pk: set<Key>, k: Key, nk: set<Key>, tnk: seq<seq<Key>>,
      fpk: seq<seq<Key>>)
    requires f.Ok() && f'.Ok() && SameGeometry(f, f')
    requires EntriesMatch(h, f', pk) && EntriesMatch(h, f, pk + {k})
    requires Tabled(h, f, tnk, Rejected(h, f, nk)) && Tabled(h, f, fpk, Accepted(h, f, nk))
    ensures var (p, q) := PositionPair(h, f, k);
            && p != q
            && Tabled(h, f', fpk[p := Select(h, f', fpk[p], true)][q := Select(h, f', fpk[q], true)],
                Accepted(h, f', nk))
            && Tabled(h, f', tnk[p := tnk[p] + Select(h, f', fpk[p], false)][q :=
                tnk[q] + Select(h, f', fpk[q], false)], Rejected(h, f', nk))
  {
    assert |tnk| == |fpk| == f.n;
    RowsOfEntry(h, f, k, k);
    hide Filter.Ok, Lookup, EntriesMatch, Tabled, EntryOf, Select, PositionPair, OnlyRows, OnRow, Rejected, Accepted;
    hide Answering;
    var (p, q) := PositionPair(h, f, k);
    RowsFixed(h, f, f', k);
    forall x ensures Lookup(h, f', x) ==> Lookup(h, f, x) {
      ChangedRows(h, f', f, pk, k, x);
    }
    AnswersMoved(h, f', f, nk);
    forall x | x in Accepted(h, f, nk) && Lookup(h, f', x) == false ensures OnlyRows(h, f, x, p, q) {
      ChangedRows(h, f', f, pk, k, x);
      InRejected(h, f, nk, x);
    }
    MovedTables(h, f, f', p, q, false, fpk, Accepted(h, f, nk), tnk, Rejected(h, f, nk));
  }

  // ---- What scanning a row does to the Othello ----

  /** The keys of `row` that `lookup` now accepts have been added with value 0. */
  ghost predicate Gained(h: Hashes, f: Filter, c: map<Key, nat>, row: seq<Key>, c': map<Key, nat>)
    requires f.Ok()
  {
    && (forall x :: x in c' <==> x in c || (x in row && Lookup(h, f, x)))
    && (forall x :: x in c' ==> c'[x] == if x in c then c[x] else 0)
  }

  /** The keys of `row` that `lookup` no longer accepts have been erased. */
  ghost predicate Lost(h: Hashes, f: Filter, c: map<Key, nat>, row: seq<Key>, c': map<Key, nat>)
    requires f.Ok()
  {
    && (forall x :: x in c' <==> x in c && !(x in row && !Lookup(h, f, x)))
    && (forall x :: x in c' ==> c'[x] == c[x])
  }

  lemma OnOwnRow(h: Hashes, f: Filter, t: seq<seq<Key>>, s: set<Key>, x: Key)
    requires f.Ok() && Tabled(h, f, t, s)
    ensures x in s <==> x in t[PositionPair(h, f, x).0]
    ensures x in s <==> x in t[PositionPair(h, f, x).1]
  {
    hide Filter.Ok, PositionPair;
    var (p, q) := PositionPair(h, f, x);
    assert RowHolds(h, f, t[p], s, p) && RowHolds(h, f, t[q], s, q);
    assert multiset(t[p])[x] == (if x in s then 1 else 0) && multiset(t[q])[x] == (if x in s then 1 else 0);
    assert x in multiset(t[p]) <==> x in t[p];
    assert x in multiset(t[q]) <==> x in t[q];
  }

  lemma RowWithin(h: Hashes, f: Filter, t: seq<seq<Key>>, s: set<Key>, r: nat, x: Key)
    requires f.Ok() && Tabled(h, f, t, s) && r < f.n && x in t[r]
    ensures x in s && OnRow(h, f, x, r)
  {
    hide Filter.Ok, PositionPair;
    assert RowHolds(h, f, t[r], s, r);
    assert x in multiset(t[r]);
  }

  /** Which keys the Othello holds after both rows of `k` have been scanned, once the filter
      accepts the entry of `k`. */
  lemma GainedKey(h: Hashes, f: Filter, f': Filter, pk: set<Key>, k: Key, nk: set<Key>, tnk: seq<seq<Key>>,
                  c: map<Key, nat>, c1: map<Key, nat>, c2: map<Key, nat>, x: Key)
    requires f.Ok() && f'.Ok() && SameGeometry(f, f') && pk !! nk
    requires EntriesMatch(h, f, pk) && EntriesMatch(h, f', pk + {k})
    requires Tabled(h, f, tnk, Rejected(h, f, nk)) && KeysMatch(h, f, c, pk, nk)
    requires Gained(h, f', c, tnk[PositionPair(h, f, k).0], c1) && Gained(h, f', c1, tnk[PositionPair(h, f, k).1], c2)
    ensures x in c2 <==> x in pk || (x in nk && Lookup(h, f', x))
    ensures x in c2 ==> c2[x] == if x in c then c[x] else 0
  {
    assert |tnk| == f.n;
    hide Filter.Ok, Lookup, EntriesMatch, Tabled, EntryOf, PositionPair, Rejected, OnlyRows;
    var s := Rejected(h, f, nk);
    var (p, q) := PositionPair(h, f, k);
    ChangedRows(h, f, f', pk, k, x);
    InRejected(h, f, nk, x);
    if x in tnk[p] { RowWithin(h, f, tnk, s, p, x); }
    if x in tnk[q] { RowWithin(h, f, tnk, s, q, x); }
    if x in nk && !Lookup(h, f, x) && Lookup(h, f', x) {
      OwnRowAmong(h, f, tnk, s, x, p, q);
    }
  }

  lemma OwnRowAmong(h: Hashes, f: Filter, t: seq<seq<Key>>, s: set<Key>, x: Key, p: nat, q: nat)
    requires f.Ok() && Tabled(h, f, t, s) && x in s && OnlyRows(h, f, x, p, q) && p < f.n && q < f.n
    ensures x in t[p]
  {
    hide Filter.Ok, PositionPair, Tabled;
    OnOwnRow(h, f, t, s, x);
    assert OnRow(h, f, x, p);
  }

  lemma GainedValue(h: Hashes, f: Filter, c: map<Key, nat>, pk: set<Key>, nk: set<Key>, x: Key, v: nat)
    requires f.Ok() && KeysMatch(h, f, c, pk, nk) && ValuesMatch(c, pk) && v == if x in c then c[x] else 0
    ensures Bit(v, 0) <==> x in pk
  {
    assert !Bit(0, 0);
    hide Filter.Ok, Lookup, Bit;
  }

  /** Key by key: what `KeysMatch` and `ValuesMatch` say together. */
  ghost predicate InOthello(h: Hashes, f: Filter, c: map<Key, nat>, pk: set<Key>, nk: set<Key>, x: Key)
    requires f.Ok()
  {
    && (x in c <==> x in pk || (x in nk && Lookup(h, f, x)))
    && (x in c ==> (Bit(c[x], 0) <==> x in pk))
  }

  lemma IsInOthello(h: Hashes, f: Filter, c: map<Key, nat>, pk: set<Key>, nk: set<Key>, x: Key)
    requires f.Ok()
    requires x in c <==> x in pk || (x in nk && Lookup(h, f, x))
    requires x in c ==> (Bit(c[x], 0) <==> x in pk)
    ensures InOthello(h, f, c, pk, nk, x)
  {
  }

  lemma AllInOthello(h: Hashes, f: Filter, c: map<Key, nat>, pk: set<Key>, nk: set<Key>)
    requires f.Ok() && forall x :: InOthello(h, f, c, pk, nk, x)
    ensures KeysMatch(h, f, c, pk, nk) && ValuesMatch(c, pk)
  {
    hide Filter.Ok, Lookup, Bit;
    forall x ensures x in c <==> x in pk || (x in nk && Lookup(h, f, x)) {
      assert InOthello(h, f, c, pk, nk, x);
    }
    forall x | x in c ensures Bit(c[x], 0) <==> x in pk {
      assert InOthello(h, f, c, pk, nk, x);
    }
  }

  lemma GainedKeys(h: Hashes, f: Filter, f': Filter, pk: set<Key>, k: Key, nk: set<Key>, tnk: seq<seq<Key>>,
                   c: map<Key, nat>, c1: map<Key, nat>, c2: map<Key, nat>)
    requires f.Ok() && f'.Ok() && SameGeometry(f, f') && k !in pk && k !in nk && pk !! nk
    requires EntriesMatch(h, f, pk) && EntriesMatch(h, f', pk + {k})
    requires Tabled(h, f, tnk, Rejected(h, f, nk)) && KeysMatch(h, f, c, pk, nk) && ValuesMatch(c, pk)
    requires Gained(h, f', c, tnk[PositionPair(h, f, k).0], c1) && Gained(h, f', c1, tnk[PositionPair(h, f, k).1], c2)
    ensures KeysMatch(h, f', c2, pk, nk) && ValuesMatch(c2, pk)
  {
    assert |tnk| == f.n;
    hide *;
    forall x ensures InOthello(h, f', c2, pk, nk, x) {
      GainedKey(h, f, f', pk, k, nk, tnk, c, c1, c2, x);
      if x in c2 { GainedValue(h, f, c, pk, nk, x, c2[x]); }
      IsInOthello(h, f', c2, pk, nk, x);
    }
    AllInOthello(h, f', c2, pk, nk);
  }

  /** Storing the new positive key itself. */
  lemma StoredPositive(h: Hashes, f: Filter, c: map<Key, nat>, pk: set<Key>, nk: set<Key>, k: Key)
    requires f.Ok() && KeysMatch(h, f, c, pk, nk) && ValuesMatch(c, pk) && k !in nk
    ensures KeysMatch(h, f, c[k := 1], pk + {k}, nk) && ValuesMatch(c[k := 1], pk + {k})
  {
    assert Bit(1, 0);
    hide Filter.Ok, Lookup, Bit;
  }

  lemma PositiveIn(h: Hashes, f: Filter, c: map<Key, nat>, pk: set<Key>, nk: set<Key>, k: Key)
    requires f.Ok() && KeysMatch(h, f, c, pk, nk) && k in pk
    ensures k in c
  {
  }

  /** A positive key that has become negative. */
  lemma StoredNegative(h: Hashes, f: Filter, c: map<Key, nat>, pk: set<Key>, nk: set<Key>, k: Key)
    requires f.Ok() && KeysMatch(h, f, c, pk, nk) && ValuesMatch(c, pk) && k !in nk
    ensures Lookup(h, f, k) ==> KeysMatch(h, f, c[k := 0], pk - {k}, nk + {k}) && ValuesMatch(c[k := 0], pk - {k})
    ensures !Lookup(h, f, k) ==> KeysMatch(h, f, c - {k}, pk - {k}, nk + {k}) && ValuesMatch(c - {k}, pk - {k})
  {
    assert !Bit(0, 0);
    hide Filter.Ok, Lookup, Bit;
    if Lookup(h, f, k) {
      KeyKept(h, f, c, pk, nk, k);
    } else {
      KeyDropped(h, f, c, pk, nk, k);
    }
  }

  lemma KeyKept(h: Hashes, f: Filter, c: map<Key, nat>, pk: set<Key>, nk: set<Key>, k: Key)
    requires f.Ok() && KeysMatch(h, f, c, pk, nk) && Lookup(h, f, k)
    ensures KeysMatch(h, f, c[k := 0], pk - {k}, nk + {k})
  {
    hide Filter.Ok, Lookup;
  }

  lemma KeyDropped(h: Hashes, f: Filter, c: map<Key, nat>, pk: set<Key>, nk: set<Key>, k: Key)
    requires f.Ok() && KeysMatch(h, f, c, pk, nk) && !Lookup(h, f, k)
    ensures KeysMatch(h, f, c - {k}, pk - {k}, nk + {k})
  {
    hide Filter.Ok, Lookup;
  }

  /** Which keys the Othello holds after both rows of `k` have been scanned, once a copy of its
      entry is gone. */
  lemma LostKey(h: Hashes, f: Filter, f': Filter, pk': set<Key>, pk: set<Key>, k: Key, nk: set<Key>, fpk: seq<seq<Key>>,
                c: map<Key, nat>, c1: map<Key, nat>, c2: map<Key, nat>, x: Key)
    requires f.Ok() && f'.Ok() && SameGeometry(f, f') && pk == pk' + {k} && pk !! nk
    requires EntriesMatch(h, f', pk') && EntriesMatch(h, f, pk)
    requires Tabled(h, f, fpk, Accepted(h, f, nk)) && KeysMatch(h, f, c, pk, nk)
    requires Lost(h, f', c, fpk[PositionPair(h, f, k).0], c1) && Lost(h, f', c1, fpk[PositionPair(h, f, k).1], c2)
    ensures x in c2 <==> x in pk || (x in nk && Lookup(h, f', x))
    ensures x in c2 ==> x in c && c2[x] == c[x]
  {
    assert |fpk| == f.n;
    hide Filter.Ok, Lookup, EntriesMatch, Tabled, EntryOf, PositionPair, Accepted, OnlyRows;
    var s := Accepted(h, f, nk);
    var (p, q) := PositionPair(h, f, k);
    RowsFixed(h, f, f', k);
    ChangedRows(h, f', f, pk', k, x);
    InRejected(h, f, nk, x);
    if x in fpk[p] { RowWithin(h, f, fpk, s, p, x); }
    if x in fpk[q] { RowWithin(h, f, fpk, s, q, x); }
    if x in nk && Lookup(h, f, x) && !Lookup(h, f', x) {
      OwnRowAmong(h, f, fpk, s, x, p, q);
    }
  }

  lemma LostKeys(h: Hashes, f: Filter, f': Filter, pk': set<Key>, pk: set<Key>, k: Key, nk: set<Key>,
      fpk: seq<seq<Key>>,
                 c: map<Key, nat>, c1: map<Key, nat>, c2: map<Key, nat>)
    requires f.Ok() && f'.Ok() && SameGeometry(f, f') && pk == pk' + {k} && pk !! nk
    requires EntriesMatch(h, f', pk') && EntriesMatch(h, f, pk)
    requires Tabled(h, f, fpk, Accepted(h, f, nk)) && KeysMatch(h, f, c, pk, nk) && ValuesMatch(c, pk)
    requires Lost(h, f', c, fpk[PositionPair(h, f, k).0], c1) && Lost(h, f', c1, fpk[PositionPair(h, f, k).1], c2)
    ensures KeysMatch(h, f', c2, pk, nk) && ValuesMatch(c2, pk)
  {
    assert |fpk| == f.n;
    hide *;
    forall x ensures InOthello(h, f', c2, pk, nk, x) {
      LostKey(h, f, f', pk', pk, k, nk, fpk, c, c1, c2, x);
      if x in c2 { LostValue(c, pk, x); }
      IsInOthello(h, f', c2, pk, nk, x);
    }
    AllInOthello(h, f', c2, pk, nk);
  }

  lemma LostValue(c: map<Key, nat>, pk: set<Key>, x: Key)
    requires ValuesMatch(c, pk) && x in c
    ensures Bit(c[x], 0) <==> x in pk
  {
  }

  // ---- The four kinds of change ----

  ghost function Keep(h: Hashes, f: Filter, t: seq<seq<Key>>, p: nat, q: nat, want: bool): seq<seq<Key>>
    requires f.Ok() && p < |t| && q < |t|
  {
    t[p := Select(h, f, t[p], want)][q := Select(h, f, t[q], want)]
  }

  ghost function Take(h: Hashes, f: Filter, t: seq<seq<Key>>, from: seq<seq<Key>>, p: nat, q: nat,
      want: bool): seq<seq<Key>>
    requires f.Ok() && p < |t| == |from| && q < |t|
  {
    t[p := t[p] + Select(h, f, from[p], want)][q := t[q] + Select(h, f, from[q], want)]
  }

  /** A successful insertion into the filter. */
  lemma InsertMatches(h: Hashes, f: Filter, f': Filter, pk: set<Key>, k: Key)
    requires f.Ok() && f'.Ok() && EntriesMatch(h, f, pk) && k !in pk && (f', 0) == Insert(h, f, k)
    ensures SameGeometry(f, f') && EntriesMatch(h, f', pk + {k}) && (CellsCounted(f) ==> CellsCounted(f'))
  {
    hide Filter.Ok, Insert, EntryOf, Entries, EntriesMatch, CellsCounted;
    InsertEntries(h, f, k);
    if CellsCounted(f) { CellsStayCounted(h, f, k); }
    AddedMatches(h, f, f', pk, k);
  }

  lemma DeleteMatches(h: Hashes, f: Filter, f': Filter, found: bool, pk: set<Key>, k: Key)
    requires f.Ok() && f'.Ok() && EntriesMatch(h, f, pk) && k in pk && (f', found) == Delete(h, f, k)
    ensures SameGeometry(f, f') && EntriesMatch(h, f', pk - {k}) && (CellsCounted(f) ==> CellsCounted(f'))
  {
    hide Filter.Ok, Delete, EntryOf, Entries, EntriesMatch, CellsCounted;
    DeleteEntries(h, f, k);
    if CellsCounted(f) { CellsStayCounted(h, f, k); }
    RemovedMatches(h, f, f', found, pk, k);
  }

  /** A new positive key: the filter gets it, the newly accepted negative keys change tables
      and enter the Othello, and so does the key. */
  lemma PositiveAdded(h: Hashes, f: Filter, f': Filter, c: map<Key, nat>, c1: map<Key, nat>, c2: map<Key, nat>,
                      pk: set<Key>, nk: set<Key>, tnk: seq<seq<Key>>, fpk: seq<seq<Key>>, k: Key)
    requires Exact(h, f, c, pk, nk, tnk, fpk) && k !in pk && k !in nk
    requires f'.Ok() && (f', 0) == Insert(h, f, k)
    requires var (p, q) := PositionPair(h, f, k); Gained(h, f', c, tnk[p], c1) && Gained(h, f', c1, tnk[q], c2)
    ensures var (p, q) := PositionPair(h, f, k);
            Exact(h, f', c2[k := 1], pk + {k}, nk, Keep(h, f', tnk, p, q, false), Take(h, f', fpk, tnk, p, q, true))
  {
    hide Filter.Ok, Insert, EntriesMatch, KeysMatch, ValuesMatch, Tabled, Gained, Select, PositionPair;
    InsertMatches(h, f, f', pk, k);
    GrownTables(h, f, f', pk, k, nk, tnk, fpk);
    GainedKeys(h, f, f', pk, k, nk, tnk, c, c1, c2);
    StoredPositive(h, f', c2, pk, nk, k);
  }

  /** A new negative key goes to the table for its answer, and to the Othello if accepted. */
  lemma NegativeAdded(h: Hashes, f: Filter, c: map<Key, nat>, pk: set<Key>, nk: set<Key>,
                      tnk: seq<seq<Key>>, fpk: seq<seq<Key>>, k: Key, v: nat)
    requires Exact(h, f, c, pk, nk, tnk, fpk) && k !in pk && k !in nk
    ensures var (p, q) := PositionPair(h, f, k);
            p < |tnk| == |fpk| && q < |tnk|
            && (Lookup(h, f, k) && !Bit(v, 0) ==> Exact(h, f, c[k := v], pk, nk + {k}, tnk, Listed(fpk, p, q, k)))
            && (!Lookup(h, f, k) ==> Exact(h, f, c, pk, nk + {k}, Listed(tnk, p, q, k), fpk))
  {
    assert |tnk| == |fpk| == f.n;
    hide Filter.Ok, EntriesMatch, Tabled, Lookup, PositionPair, Bit, KeysMatch, ValuesMatch, Rejected, Accepted, Listed;
    NegativeListed(h, f, nk, tnk, fpk, k);
    NegativeStored(h, f, c, pk, nk, k, v);
  }

  lemma NegativeStored(h: Hashes, f: Filter, c: map<Key, nat>, pk: set<Key>, nk: set<Key>, k: Key, v: nat)
    requires f.Ok() && KeysMatch(h, f, c, pk, nk) && ValuesMatch(c, pk) && k !in pk && k !in nk
    ensures Lookup(h, f, k) && !Bit(v, 0) ==> KeysMatch(h, f, c[k := v], pk, nk + {k}) && ValuesMatch(c[k := v], pk)
    ensures !Lookup(h, f, k) ==> KeysMatch(h, f, c, pk, nk + {k}) && ValuesMatch(c, pk)
  {
    hide Filter.Ok, Lookup, Bit;
  }

  lemma SplitWith(h: Hashes, f: Filter, nk: set<Key>, k: Key)
    requires f.Ok()
    ensures Rejected(h, f, nk + {k}) == if Lookup(h, f, k) then Rejected(h, f, nk) else Rejected(h, f, nk) + {k}
    ensures Accepted(h, f, nk + {k}) == if Lookup(h, f, k) then Accepted(h, f, nk) + {k} else Accepted(h, f, nk)
  {
    hide Filter.Ok, Lookup;
  }

  lemma SplitWithout(h: Hashes, f: Filter, nk: set<Key>, k: Key)
    requires f.Ok()
    ensures Rejected(h, f, nk - {k}) == if Lookup(h, f, k) then Rejected(h, f, nk) else Rejected(h, f, nk) - {k}
    ensures Accepted(h, f, nk - {k}) == if Lookup(h, f, k) then Accepted(h, f, nk) - {k} else Accepted(h, f, nk)
  {
    hide Filter.Ok, Lookup;
  }

  lemma NegativeListed(h: Hashes, f: Filter, nk: set<Key>, tnk: seq<seq<Key>>, fpk: seq<seq<Key>>, k: Key)
    requires f.Ok() && k !in nk && Tabled(h, f, tnk, Rejected(h, f, nk)) && Tabled(h, f, fpk, Accepted(h, f, nk))
    ensures var (p, q) := PositionPair(h, f, k);
            && (Lookup(h, f, k) ==>
                  && Tabled(h, f, tnk, Rejected(h, f, nk + {k}))
                  && Tabled(h, f, Listed(fpk, p, q, k), Accepted(h, f, nk + {k})))
            && (!Lookup(h, f, k) ==>
                  && Tabled(h, f, Listed(tnk, p, q, k), Rejected(h, f, nk + {k}))
                  && Tabled(h, f, fpk, Accepted(h, f, nk + {k})))
  {
    assert |tnk| == |fpk| == f.n;
    InRejected(h, f, nk, k);
    SplitWith(h, f, nk, k);
    hide Filter.Ok, Tabled, Lookup, PositionPair, Rejected, Accepted;
    if Lookup(h, f, k) {
      ListedTable(h, f, fpk, Accepted(h, f, nk), k);
    } else {
      ListedTable(h, f, tnk, Rejected(h, f, nk), k);
    }
  }

  /** Taking a negative key out of its table: what is left is exact for the other keys. */
  lemma NegativeTaken(h: Hashes, f: Filter, c: map<Key, nat>, pk: set<Key>, nk: set<Key>,
                      tnk: seq<seq<Key>>, fpk: seq<seq<Key>>, k: Key)
    requires Exact(h, f, c, pk, nk, tnk, fpk) && k in nk
    ensures var (p, q) := PositionPair(h, f, k);
            p < |tnk| == |fpk| && q < |tnk|
            && (Lookup(h, f, k) ==> Exact(h, f, c - {k}, pk, nk - {k}, tnk, Unlisted(fpk, p, q, k)))
            && (!Lookup(h, f, k) ==> Exact(h, f, c - {k}, pk, nk - {k}, Unlisted(tnk, p, q, k), fpk))
  {
    assert |tnk| == |fpk| == f.n;
    SplitWithout(h, f, nk, k);
    KeyTaken(h, f, c, pk, nk, k);
    hide Filter.Ok, EntriesMatch, KeysMatch, ValuesMatch, Tabled, Lookup, PositionPair, Rejected, Accepted;
    if Lookup(h, f, k) {
      UnlistedTable(h, f, fpk, Accepted(h, f, nk), k);
    } else {
      UnlistedTable(h, f, tnk, Rejected(h, f, nk), k);
    }
  }

  lemma KeyTaken(h: Hashes, f: Filter, c: map<Key, nat>, pk: set<Key>, nk: set<Key>, k: Key)
    requires f.Ok() && KeysMatch(h, f, c, pk, nk) && ValuesMatch(c, pk) && k in nk && pk !! nk
    ensures KeysMatch(h, f, c - {k}, pk, nk - {k}) && ValuesMatch(c - {k}, pk)
  {
    hide Filter.Ok, Lookup, Bit;
  }

  /** Scanning rows that do not list `k` treats the rest the same with or without it. */
  lemma GainedWithout(h: Hashes, f: Filter, c: map<Key, nat>, row: seq<Key>, c': map<Key, nat>, k: Key)
    requires f.Ok() && Gained(h, f, c, row, c') && k !in row
    ensures Gained(h, f, c - {k}, row, c' - {k}) && (k in c' <==> k in c)
  {
    hide Filter.Ok, Lookup;
  }

  /** A positive key that has become negative. */
  lemma TurnedNegative(h: Hashes, f: Filter, f': Filter, found: bool, c: map<Key, nat>, c1: map<Key, nat>,
      c2: map<Key, nat>,
                       pk: set<Key>, nk: set<Key>, tnk: seq<seq<Key>>, fpk: seq<seq<Key>>,
                       k: Key, p: nat, q: nat, tnk': seq<seq<Key>>, fpk': seq<seq<Key>>)
    requires Exact(h, f, c, pk, nk, tnk, fpk) && k in pk && (p, q) == PositionPair(h, f, k)
    requires f'.Ok() && (f', found) == Delete(h, f, k)
    requires Lost(h, f', c, fpk[p], c1) && Lost(h, f', c1, fpk[q], c2)
    requires tnk' == Take(h, f', tnk, fpk, p, q, false) && fpk' == Keep(h, f', fpk, p, q, true)
    ensures k in c2 && |tnk'| == |fpk'| == |tnk|
    ensures Lookup(h, f', k) ==> Exact(h, f', c2[k := 0], pk - {k}, nk + {k}, tnk', Listed(fpk', p, q, k))
    ensures !Lookup(h, f', k) ==> Exact(h, f', c2 - {k}, pk - {k}, nk + {k}, Listed(tnk', p, q, k), fpk')
  {
    hide Filter.Ok, Delete, EntriesMatch, KeysMatch, ValuesMatch, Tabled, Lost, Select, PositionPair, Lookup, Rejected;
    hide Accepted, Listed, SameGeometry;
    DeleteMatches(h, f, f', found, pk, k);
    TurnedTables(h, f, f', pk, nk, tnk, fpk, k, p, q, tnk', fpk');
    TurnedKeys(h, f, f', pk, nk, fpk, k, p, q, c, c1, c2);
  }

  lemma TurnedTables(h: Hashes, f: Filter, f': Filter, pk: set<Key>, nk: set<Key>, tnk: seq<seq<Key>>,
      fpk: seq<seq<Key>>,
                     k: Key, p: nat, q: nat, tnk': seq<seq<Key>>, fpk': seq<seq<Key>>)
    requires f.Ok() && f'.Ok() && SameGeometry(f, f') && k in pk && k !in nk && (p, q) == PositionPair(h, f, k)
    requires EntriesMatch(h, f, pk) && EntriesMatch(h, f', pk - {k})
    requires Tabled(h, f, tnk, Rejected(h, f, nk)) && Tabled(h, f, fpk, Accepted(h, f, nk))
    requires tnk' == Take(h, f', tnk, fpk, p, q, false) && fpk' == Keep(h, f', fpk, p, q, true)
    ensures |tnk'| == |fpk'| == |tnk|
    ensures Lookup(h, f', k) ==>
              && Tabled(h, f', tnk', Rejected(h, f', nk + {k}))
              && Tabled(h, f', Listed(fpk', p, q, k), Accepted(h, f', nk + {k}))
    ensures !Lookup(h, f', k) ==>
              && Tabled(h, f', Listed(tnk', p, q, k), Rejected(h, f', nk + {k}))
              && Tabled(h, f', fpk', Accepted(h, f', nk + {k}))
  {
    assert |tnk| == |fpk| == f.n && pk - {k} + {k} == pk;
    hide Filter.Ok, EntriesMatch, Tabled, Select, PositionPair, Lookup, Rejected, Accepted, Listed;
    ShrunkTables(h, f, f', pk - {k}, k, nk, tnk, fpk);
    RowsFixed(h, f, f', k);
    NegativeListed(h, f', nk, tnk', fpk', k);
  }

  lemma TurnedKeys(h: Hashes, f: Filter, f': Filter, pk: set<Key>, nk: set<Key>, fpk: seq<seq<Key>>, k: Key, p: nat,
      q: nat,
                   c: map<Key, nat>, c1: map<Key, nat>, c2: map<Key, nat>)
    requires f.Ok() && f'.Ok() && SameGeometry(f, f') && k in pk && pk !! nk && (p, q) == PositionPair(h, f, k)
    requires EntriesMatch(h, f, pk) && EntriesMatch(h, f', pk - {k})
    requires Tabled(h, f, fpk, Accepted(h, f, nk)) && KeysMatch(h, f, c, pk, nk) && ValuesMatch(c, pk)
    requires Lost(h, f', c, fpk[p], c1) && Lost(h, f', c1, fpk[q], c2)
    ensures k in c2
    ensures Lookup(h, f', k) ==> KeysMatch(h, f', c2[k := 0], pk - {k}, nk + {k}) && ValuesMatch(c2[k := 0], pk - {k})
    ensures !Lookup(h, f', k) ==> KeysMatch(h, f', c2 - {k}, pk - {k}, nk + {k}) && ValuesMatch(c2 - {k}, pk - {k})
  {
    hide *;
    assert pk == pk - {k} + {k};
    LostKeys(h, f, f', pk - {k}, pk, k, nk, fpk, c, c1, c2);
    PositiveIn(h, f', c2, pk, nk, k);
    StoredNegative(h, f', c2, pk, nk, k);
  }

  // ---- Scanning a row, key by key ----

  /** How many keys of a row the Othello has to take in. */
  ghost function NewcomerCount(h: Hashes, f: Filter, c: map<Key, nat>, s: seq<Key>): nat
    requires f.Ok()
  {
    if s == [] then 0
    else
      var x := s[|s| - 1];
      NewcomerCount(h, f, c, s[..|s| - 1]) + (if Lookup(h, f, x) && x !in c then 1 else 0)
  }

  lemma {:induction false} NewcomersGrow(h: Hashes, f: Filter, c: map<Key, nat>, s: seq<Key>, j: nat)
    requires f.Ok() && j < |s|
    ensures NewcomerCount(h, f, c, s[..j + 1]) == NewcomerCount(h, f, c, s[..j])
        + (if Lookup(h, f, s[j]) && s[j] !in c then 1 else 0)
    ensures NewcomerCount(h, f, c, s[..j + 1]) <= NewcomerCount(h, f, c, s)
    decreases |s| - j
  {
    hide Filter.Ok, Lookup;
    assert s[..j + 1][..j] == s[..j];
    if j + 1 < |s| {
      NewcomersGrow(h, f, c, s, j + 1);
    } else {
      assert s[..j + 1] == s;
    }
  }

  ghost predicate Distinct(s: seq<Key>) {
    forall i, j :: 0 <= i < j < |s| ==> s[i] != s[j]
  }

  /** After `j` keys of the row: the keys kept, then the keys to come. */
  ghost function Scanned(h: Hashes, f: Filter, row: seq<Key>, j: nat, want: bool): seq<Key>
    requires f.Ok() && j <= |row|
  {
    Select(h, f, row[..j], want) + row[j..]
  }

  lemma ScanStart(h: Hashes, f: Filter, row: seq<Key>, want: bool)
    requires f.Ok()
    ensures Scanned(h, f, row, 0, want) == row && Select(h, f, row[..0], want) == []
  {
    hide Filter.Ok, Lookup;
  }

  lemma ScanLength(h: Hashes, f: Filter, row: seq<Key>, j: nat, want: bool)
    requires f.Ok() && j <= |row|
    ensures |Scanned(h, f, row, j, want)| == |Select(h, f, row[..j], want)| + |row| - j
  {
  }

  lemma ScanEnd(h: Hashes, f: Filter, row: seq<Key>, want: bool)
    requires f.Ok()
    ensures Scanned(h, f, row, |row|, want) == Select(h, f, row, want) && row[..|row|] == row
  {
    hide Filter.Ok, Lookup, Select;
    assert row[..|row|] == row;
  }

  /** The iterator points at key `j`. */
  lemma ScanAt(h: Hashes, f: Filter, row: seq<Key>, j: nat, want: bool)
    requires f.Ok() && j < |row|
    ensures var i, s := |Select(h, f, row[..j], want)|, Scanned(h, f, row, j, want);
            i < |s| && s[i] == row[j]
  {
    hide Filter.Ok, Lookup, Select;
  }

  /** Which is erased, and joins the other keys, */
  lemma ScanErase(h: Hashes, f: Filter, row: seq<Key>, j: nat, want: bool)
    requires f.Ok() && j < |row| && Lookup(h, f, row[j]) != want
    ensures var i, s := |Select(h, f, row[..j], want)|, Scanned(h, f, row, j, want);
            i < |s| && Scanned(h, f, row, j + 1, want) == s[..i] + s[i + 1..]
    ensures Select(h, f, row[..j + 1], want) == Select(h, f, row[..j], want)
    ensures Select(h, f, row[..j + 1], !want) == Select(h, f, row[..j], !want) + [row[j]]
  {
    SelectNext(h, f, row, j, want);
    SelectNext(h, f, row, j, !want);
    var a, b := Select(h, f, row[..j], want), Select(h, f, row[..j + 1], want);
    assert Scanned(h, f, row, j, want) == a + row[j..] && Scanned(h, f, row, j + 1, want) == b + row[j + 1..];
    hide *;
    Splice(a, row, j);
    NothingAppended(a);
  }

  /** or stepped over. */
  lemma ScanKeep(h: Hashes, f: Filter, row: seq<Key>, j: nat, want: bool)
    requires f.Ok() && j < |row| && Lookup(h, f, row[j]) == want
    ensures Scanned(h, f, row, j + 1, want) == Scanned(h, f, row, j, want)
    ensures |Select(h, f, row[..j + 1], want)| == |Select(h, f, row[..j], want)| + 1
    ensures Select(h, f, row[..j + 1], !want) == Select(h, f, row[..j], !want)
  {
    SelectNext(h, f, row, j, want);
    SelectNext(h, f, row, j, !want);
    var a, b := Select(h, f, row[..j], want), Select(h, f, row[..j + 1], want);
    assert Scanned(h, f, row, j, want) == a + row[j..] && Scanned(h, f, row, j + 1, want) == b + row[j + 1..];
    hide *;
    Splice(a, row, j);
    NothingAppended(Select(h, f, row[..j], !want));
  }

  lemma NothingAppended(a: seq<Key>)
    ensures a + [] == a
  {
  }

  lemma Splice(a: seq<Key>, row: seq<Key>, j: nat)
    requires j < |row|
    ensures var s := a + row[j..];
            |a| < |s| && s[|a|] == row[j] && s[..|a|] + s[|a| + 1..] == a + row[j + 1..]
                && a + [row[j]] + row[j + 1..] == s
  {
    assert row[j..] == [row[j]] + row[j + 1..];
  }

  lemma GainedStart(h: Hashes, f: Filter, c: map<Key, nat>, row: seq<Key>)
    requires f.Ok()
    ensures Gained(h, f, c, row[..0], c) && Lost(h, f, c, row[..0], c) && NewcomerCount(h, f, c, row[..0]) == 0
  {
    hide Filter.Ok, Lookup;
  }

  lemma GainedNext(h: Hashes, f: Filter, c0: map<Key, nat>, row: seq<Key>, j: nat, c: map<Key, nat>)
    requires f.Ok() && j < |row| && Distinct(row) && Gained(h, f, c0, row[..j], c)
    ensures row[j] in c <==> row[j] in c0
    ensures !Lookup(h, f, row[j]) || row[j] in c ==> Gained(h, f, c0, row[..j + 1], c)
    ensures Lookup(h, f, row[j]) && row[j] !in c ==> Gained(h, f, c0, row[..j + 1], c[row[j] := 0])
  {
    hide Filter.Ok, Lookup;
    assert row[..j + 1] == row[..j] + [row[j]];
    assert row[j] !in row[..j];
  }

  lemma LostNext(h: Hashes, f: Filter, c0: map<Key, nat>, row: seq<Key>, j: nat, c: map<Key, nat>)
    requires f.Ok() && j < |row| && Lost(h, f, c0, row[..j], c)
    ensures Lookup(h, f, row[j]) || row[j] !in c ==> Lost(h, f, c0, row[..j + 1], c)
    ensures !Lookup(h, f, row[j]) ==> Lost(h, f, c0, row[..j + 1], c - {row[j]})
  {
    hide Filter.Ok, Lookup;
    assert row[..j + 1] == row[..j] + [row[j]];
  }

  // ---- Around the scan of both rows ----

  /** How many keys of a row share the entry `e`. */
  function SharerCount(h: Hashes, f: Filter, e: Entry, s: seq<Key>): nat
    requires f.Ok()
  {
    if s == [] then 0
    else SharerCount(h, f, e, s[..|s| - 1]) + (if EntryOf(h, f, s[|s| - 1]) == e then 1 else 0)
  }

  lemma {:induction false} NewcomersShare(h: Hashes, f: Filter, f': Filter, c: map<Key, nat>, e: Entry, s: seq<Key>)
    requires f.Ok() && f'.Ok()
    requires forall x :: x in s && Lookup(h, f', x) ==> EntryOf(h, f, x) == e
    ensures NewcomerCount(h, f', c, s) <= SharerCount(h, f, e, s)
  {
    hide Filter.Ok, Lookup, EntryOf;
    if s != [] {
      NewcomersShare(h, f, f', c, e, s[..|s| - 1]);
    }
  }

  lemma {:induction false} NoNewcomers(h: Hashes, f: Filter, c: map<Key, nat>, s: seq<Key>)
    requires f.Ok() && forall x :: x in s && Lookup(h, f, x) ==> x in c
    ensures NewcomerCount(h, f, c, s) == 0
  {
    hide Filter.Ok, Lookup;
    if s != [] {
      NoNewcomers(h, f, c, s[..|s| - 1]);
    }
  }

  lemma RowDistinct(h: Hashes, f: Filter, t: seq<seq<Key>>, s: set<Key>, r: nat)
    requires f.Ok() && Tabled(h, f, t, s) && r < f.n
    ensures Distinct(t[r])
  {
    hide Filter.Ok, PositionPair;
    assert RowHolds(h, f, t[r], s, r);
    forall i, j | 0 <= i < j < |t[r]| ensures t[r][i] != t[r][j] {
      if t[r][i] == t[r][j] {
        TwiceCounted(t[r], i, j);
      }
    }
  }

  lemma TwiceCounted(s: seq<Key>, i: nat, j: nat)
    requires i < j < |s| && s[i] == s[j]
    ensures multiset(s)[s[i]] >= 2
  {
    assert s == s[..j] + [s[j]] + s[j + 1..];
    assert s[i] in s[..j];
    assert multiset(s[..j])[s[i]] >= 1;
  }

  /** What holds when the new positive key `k` is in the filter and its rows are to be scanned.
      `k` itself may be in the Othello. */
  lemma BeforeScan(h: Hashes, f: Filter, f': Filter, c: map<Key, nat>, pk: set<Key>, nk: set<Key>,
                   tnk: seq<seq<Key>>, fpk: seq<seq<Key>>, k: Key, p: nat, q: nat, keyCnt: nat, capacity: nat)
    requires Exact(h, f, c - {k}, pk, nk, tnk, fpk) && k !in pk && k !in nk
    requires f'.Ok() && (f', 0) == Insert(h, f, k) && (p, q) == PositionPair(h, f, k)
    ensures p < |tnk| == |fpk| && q < |tnk| && p != q && PositionPair(h, f', k) == (p, q)
    ensures Distinct(tnk[p]) && Distinct(tnk[q]) && k !in tnk[p] && k !in tnk[q]
    ensures forall x :: x in tnk[p] ==> x !in c
    ensures HasRoom(h, f, k in c, tnk, keyCnt, capacity, k) ==>
              keyCnt + NewcomerCount(h, f', c, tnk[p]) + (if k in c then 0 else 1) <= capacity
  {
    assert |tnk| == |fpk| == f.n;
    hide Filter.Ok, Insert, EntriesMatch, KeysMatch, ValuesMatch, Tabled, Lookup, EntryOf, PositionPair, Rejected;
    hide Accepted, Distinct;
    InsertMatches(h, f, f', pk, k);
    RowsOfEntry(h, f, k, k);
    RowsFixed(h, f, f', k);
    RowDistinct(h, f, tnk, Rejected(h, f, nk), p);
    RowDistinct(h, f, tnk, Rejected(h, f, nk), q);
    forall x | x in tnk[p] ensures x !in c && x != k && (Lookup(h, f', x) ==> EntryOf(h, f, x) == EntryOf(h, f, k)) {
      Waiting(h, f, f', pk, nk, tnk, k, p, x);
      OutsideOthello(h, f, c, pk, nk, k, x);
    }
    forall x | x in tnk[q] ensures x != k {
      Waiting(h, f, f', pk, nk, tnk, k, q, x);
    }
    hide HasRoom;
    NewcomersShare(h, f, f', c, EntryOf(h, f, k), tnk[p]);
    if HasRoom(h, f, k in c, tnk, keyCnt, capacity, k) {
      RoomForRow(h, f, f', c, tnk, keyCnt, capacity, k, p);
    }
  }

  lemma OutsideOthello(h: Hashes, f: Filter, c: map<Key, nat>, pk: set<Key>, nk: set<Key>, k: Key, x: Key)
    requires f.Ok() && KeysMatch(h, f, c - {k}, pk, nk) && pk !! nk && x in nk && !Lookup(h, f, x) && x != k
    ensures x !in c
  {
    hide Filter.Ok, Lookup;
    assert x !in c - {k};
  }

  /** A key in the table of rejected keys. */
  lemma Waiting(h: Hashes, f: Filter, f': Filter, pk: set<Key>, nk: set<Key>, tnk: seq<seq<Key>>, k: Key, r: nat,
      x: Key)
    requires f.Ok() && f'.Ok() && SameGeometry(f, f') && EntriesMatch(h, f, pk) && EntriesMatch(h, f', pk + {k})
    requires Tabled(h, f, tnk, Rejected(h, f, nk)) && r < f.n && x in tnk[r]
    ensures x in nk && !Lookup(h, f, x) && (Lookup(h, f', x) ==> EntryOf(h, f, x) == EntryOf(h, f, k))
  {
    hide Filter.Ok, EntriesMatch, Tabled, Lookup, EntryOf, PositionPair, Rejected;
    RowWithin(h, f, tnk, Rejected(h, f, nk), r, x);
    InRejected(h, f, nk, x);
    AcceptChange(h, f, f', pk, k, x);
  }

  /** After the first row there is nobody left to take in: the second row lists the same
      newly accepted keys. */
  lemma BetweenScans(h: Hashes, f: Filter, f': Filter, c: map<Key, nat>, c1: map<Key, nat>, pk: set<Key>, nk: set<Key>,
                     tnk: seq<seq<Key>>, fpk: seq<seq<Key>>, k: Key, p: nat, q: nat)
    requires Exact(h, f, c - {k}, pk, nk, tnk, fpk) && k !in pk && k !in nk
    requires f'.Ok() && (f', 0) == Insert(h, f, k) && (p, q) == PositionPair(h, f, k)
    requires p < |tnk| && q < |tnk| && Gained(h, f', c, tnk[p], c1)
    ensures NewcomerCount(h, f', c1, tnk[q]) == 0
  {
    assert |tnk| == |fpk| == f.n;
    hide Filter.Ok, Insert, EntriesMatch, KeysMatch, ValuesMatch, Tabled, Lookup, EntryOf, PositionPair, Rejected;
    hide Accepted, OnlyRows;
    InsertMatches(h, f, f', pk, k);
    forall x | x in tnk[q] && Lookup(h, f', x) ensures x in c1 {
      Waiting(h, f, f', pk, nk, tnk, k, q, x);
      ChangedRows(h, f, f', pk, k, x);
      InRejected(h, f, nk, x);
      OwnRowAmong(h, f, tnk, Rejected(h, f, nk), x, p, q);
    }
    NoNewcomers(h, f', c1, tnk[q]);
  }

  /** After both rows: exact, once `k` has the value 1. */
  lemma AfterScans(h: Hashes, f: Filter, f': Filter, c: map<Key, nat>, c1: map<Key, nat>, c2: map<Key, nat>,
      pk: set<Key>, nk: set<Key>,
                   tnk: seq<seq<Key>>, fpk: seq<seq<Key>>, k: Key, p: nat, q: nat,
                   tnk1: seq<seq<Key>>, fpk1: seq<seq<Key>>, tnk2: seq<seq<Key>>, fpk2: seq<seq<Key>>)
    requires Exact(h, f, c - {k}, pk, nk, tnk, fpk) && k !in pk && k !in nk
    requires f'.Ok() && (f', 0) == Insert(h, f, k) && (p, q) == PositionPair(h, f, k)
    requires p < |tnk| == |fpk| && q < |tnk| && p != q && k !in tnk[p] && k !in tnk[q]
    requires Gained(h, f', c, tnk[p], c1) && Gained(h, f', c1, tnk[q], c2)
    requires RowMoved(h, f', p, tnk, fpk, tnk1, fpk1, true) && RowMoved(h, f', q, tnk1, fpk1, tnk2, fpk2, true)
    ensures Exact(h, f', c2[k := 1], pk + {k}, nk, tnk2, fpk2)
    ensures k in c2 <==> k in c
  {
    hide Filter.Ok, Insert, Exact, Gained, PositionPair, Keep, Take, RowMoved;
    RowsMoved(h, f', p, q, tnk, fpk, tnk1, fpk1, tnk2, fpk2, true);
    GainedWithout(h, f', c, tnk[p], c1, k);
    GainedWithout(h, f', c1, tnk[q], c2, k);
    PositiveAdded(h, f, f', c - {k}, c1 - {k}, c2 - {k}, pk, nk, tnk, fpk, k);
    SameUpdate(c2, k);
  }

  lemma SameUpdate(c: map<Key, nat>, k: Key)
    ensures (c - {k})[k := 1] == c[k := 1]
  {
  }

  /** On row `r`, the keys that `lookup` answers with `want` have moved from `a` to `b`. */
  ghost predicate RowMoved(h: Hashes, f: Filter, r: nat, a: seq<seq<Key>>, b: seq<seq<Key>>, a': seq<seq<Key>>,
      b': seq<seq<Key>>, want: bool)
    requires f.Ok()
  {
    && r < |a| == |b|
    && a' == a[r := Select(h, f, a[r], !want)]
    && b' == b[r := b[r] + Select(h, f, a[r], want)]
  }

  lemma RowLengths(h: Hashes, f: Filter, r: nat, a: seq<seq<Key>>, b: seq<seq<Key>>, a': seq<seq<Key>>,
      b': seq<seq<Key>>, want: bool)
    requires f.Ok() && RowMoved(h, f, r, a, b, a', b', want)
    ensures |a'| == |b'| == |a| == |b| && forall q: nat :: q < |a| && q != r ==> a'[q] == a[q]
  {
  }

  lemma RowsMoved(h: Hashes, f: Filter, p: nat, q: nat, a: seq<seq<Key>>, b: seq<seq<Key>>, a1: seq<seq<Key>>,
      b1: seq<seq<Key>>,
                  a2: seq<seq<Key>>, b2: seq<seq<Key>>, want: bool)
    requires f.Ok() && p != q && RowMoved(h, f, p, a, b, a1, b1, want) && RowMoved(h, f, q, a1, b1, a2, b2, want)
    ensures p < |a| == |b| && q < |a| && a2 == Keep(h, f, a, p, q, !want) && b2 == Take(h, f, b, a, p, q, want)
  {
    hide Filter.Ok, Select;
  }

  /** The Othello arrays have room for the keys that join when `k` becomes positive: those on
      its row that share its entry, and `k` itself unless it is in already. */
  predicate HasRoom(h: Hashes, f: Filter, stored: bool, tnk: seq<seq<Key>>, keyCnt: nat, capacity: nat, k: Key)
    requires f.Ok()
  {
    && PositionPair(h, f, k).0 < |tnk|
    && keyCnt + SharerCount(h, f, EntryOf(h, f, k), Without(tnk[PositionPair(h, f, k).0], k))
        + (if stored then 0 else 1) <= capacity
  }

  lemma {:induction false} WithoutAbsent(s: seq<Key>, k: Key)
    requires k !in s
    ensures Without(s, k) == s
  {
    if s != [] {
      hide Without;
      WithoutAbsent(s[..|s| - 1], k);
      WithoutLast(s, k);
      LastPushed(s);
    }
  }

  /** Taking `k` out of its table leaves as much room. */
  lemma RoomUnlisted(h: Hashes, f: Filter, c: map<Key, nat>, tnk: seq<seq<Key>>, keyCnt: nat, capacity: nat, k: Key)
    requires f.Ok() && |tnk| == f.n && HasRoom(h, f, k in c, tnk, keyCnt, capacity, k)
    ensures var (p, q) := PositionPair(h, f, k);
            HasRoom(h, f, k in c, Unlisted(tnk, p, q, k), keyCnt, capacity, k)
  {
    hide Filter.Ok, PositionPair, EntryOf, SharerCount, Without;
    RowsOfEntry(h, f, k, k);
    var (p, q) := PositionPair(h, f, k);
    WithoutCounts(tnk[p], k, k);
    assert k !in multiset(Without(tnk[p], k));
    WithoutAbsent(Without(tnk[p], k), k);
  }

  lemma RoomForRow(h: Hashes, f: Filter, f': Filter, c: map<Key, nat>, tnk: seq<seq<Key>>, keyCnt: nat, capacity: nat,
      k: Key, p: nat)
    requires f.Ok() && HasRoom(h, f, k in c, tnk, keyCnt, capacity, k) && f'.Ok() && p == PositionPair(h, f, k).0
    requires k !in tnk[p] && NewcomerCount(h, f', c, tnk[p]) <= SharerCount(h, f, EntryOf(h, f, k), tnk[p])
    ensures keyCnt + NewcomerCount(h, f', c, tnk[p]) + (if k in c then 0 else 1) <= capacity
  {
    hide Filter.Ok, PositionPair, EntryOf, SharerCount, NewcomerCount;
    WithoutAbsent(tnk[p], k);
  }

  /** What holds when a copy of the entry of the positive key `k` has left the filter. */
  lemma BeforeReject(h: Hashes, f: Filter, f': Filter, found: bool, c: map<Key, nat>, pk: set<Key>, nk: set<Key>,
                     tnk: seq<seq<Key>>, fpk: seq<seq<Key>>, k: Key, p: nat, q: nat)
    requires Exact(h, f, c, pk, nk, tnk, fpk) && k in pk && f'.Ok() && (f', found) == Delete(h, f, k)
    requires (p, q) == PositionPair(h, f, k)
    ensures p < |tnk| == |fpk| && q < |tnk| && p != q && PositionPair(h, f', k) == (p, q)
  {
    hide Filter.Ok, Delete, EntriesMatch, KeysMatch, ValuesMatch, EntryOf, PositionPair;
    DeleteMatches(h, f, f', found, pk, k);
    RowsOfEntry(h, f, k, k);
    RowsFixed(h, f, f', k);
  }

  // ---- Filling an empty tracker ----

  ghost function Elements(s: seq<Key>): set<Key> {
    set x | x in s
  }

  lemma NextElement(s: seq<Key>, j: nat)
    requires Distinct(s) && j < |s|
    ensures Elements(s[..j + 1]) == Elements(s[..j]) + {s[j]} && s[j] !in Elements(s[..j])
        && s[..j + 1] == s[..j] + [s[j]]
  {
  }

  /** Empty rows list nothing. */
  lemma EmptyTables(h: Hashes, f: Filter, t: seq<seq<Key>>)
    requires f.Ok() && |t| == f.n && forall r :: 0 <= r < |t| ==> t[r] == []
    ensures Tabled(h, f, t, Rejected(h, f, {})) && Tabled(h, f, t, Accepted(h, f, {}))
  {
    hide Filter.Ok, Lookup, PositionPair;
  }

  /** The Othello after the positive keys and the first `i` false positives. */
  ghost predicate Filled(c: map<Key, nat>, pk: set<Key>, fps: set<Key>) {
    && (forall x :: x in c <==> x in pk || x in fps)
    && (forall x :: x in c ==> c[x] == if x in pk then 1 else 0)
  }

  lemma FilledPositive(c: map<Key, nat>, pk: set<Key>, k: Key)
    requires Filled(c, pk, {}) && k !in pk
    ensures k !in c && Filled(c[k := 1], pk + {k}, {})
  {
  }

  lemma FilledNegative(c: map<Key, nat>, pk: set<Key>, fps: set<Key>, k: Key)
    requires Filled(c, pk, fps) && k !in pk && k !in fps
    ensures k !in c && Filled(c[k := 0], pk, fps + {k})
  {
  }

  lemma FilledMatches(h: Hashes, f: Filter, c: map<Key, nat>, pk: set<Key>, nk: set<Key>)
    requires f.Ok() && Filled(c, pk, Accepted(h, f, nk))
    ensures KeysMatch(h, f, c, pk, nk) && ValuesMatch(c, pk)
  {
    assert !Bit(0, 0) && Bit(1, 0);
    hide Filter.Ok, Lookup, Bit;
  }

  // ---- Which keys the Othello comes to hold ----

  /** The positive keys and the false positives. */
  ghost function OthelloKeys(h: Hashes, f: Filter, pk: set<Key>, nk: set<Key>): set<Key>
    requires f.Ok()
  {
    pk + Accepted(h, f, nk)
  }

  lemma ExactKeys(h: Hashes, f: Filter, c: map<Key, nat>, pk: set<Key>, nk: set<Key>,
                  tnk: seq<seq<Key>>, fpk: seq<seq<Key>>)
    requires Exact(h, f, c, pk, nk, tnk, fpk)
    ensures c.Keys == OthelloKeys(h, f, pk, nk)
  {
    hide Filter.Ok, Lookup, EntriesMatch, Tabled, CellsCounted;
  }

  /** The keys of a row that the filter accepts. */
  ghost function Taken(h: Hashes, f: Filter, row: seq<Key>): set<Key>
    requires f.Ok()
  {
    set x | x in row && Lookup(h, f, x)
  }

  lemma GainedAll(h: Hashes, f: Filter, c: map<Key, nat>, row: seq<Key>, c': map<Key, nat>)
    requires f.Ok() && Gained(h, f, c, row, c')
    ensures c'.Keys == c.Keys + Taken(h, f, row)
  {
    hide Filter.Ok, Lookup;
  }

  lemma GainedPart(h: Hashes, f: Filter, c: map<Key, nat>, row: seq<Key>, j: nat, c': map<Key, nat>)
    requires f.Ok() && j < |row| && Gained(h, f, c, row[..j], c') && Lookup(h, f, row[j])
    ensures c'.Keys + {row[j]} <= c.Keys + Taken(h, f, row)
  {
    hide Filter.Ok, Lookup;
  }

  /** The keys that end up in the Othello when `k` turns positive, before `k` itself is put in. */
  ghost function Joining(h: Hashes, f: Filter, pk: set<Key>, nk: set<Key>, k: Key, stored: bool): set<Key>
    requires f.Ok()
  {
    OthelloKeys(h, f, pk, nk) + (if stored then {k} else {})
  }

  /** What the scans of the two rows take in is among them, */
  lemma JoinWithin(h: Hashes, f: Filter, f': Filter, c: map<Key, nat>, pk: set<Key>, nk: set<Key>,
                   tnk: seq<seq<Key>>, fpk: seq<seq<Key>>, k: Key, p: nat, q: nat)
    requires Exact(h, f, c - {k}, pk, nk, tnk, fpk) && k !in pk && k !in nk
    requires f'.Ok() && (f', 0) == Insert(h, f, k) && p < |tnk| && q < |tnk|
    ensures c.Keys + Taken(h, f', tnk[p]) + Taken(h, f', tnk[q]) <= Joining(h, f', pk, nk, k, k in c)
  {
    assert |tnk| == |fpk| == f.n;
    hide Filter.Ok, Insert, EntriesMatch, KeysMatch, ValuesMatch, Tabled, Lookup, Rejected, Accepted, CellsCounted;
    hide Taken;
    InsertMatches(h, f, f', pk, k);
    ExactKeys(h, f, c - {k}, pk, nk, tnk, fpk);
    AcceptedGrows(h, f, f', pk, nk, k);
    TakenAccepted(h, f, f', pk, nk, tnk, k, p);
    TakenAccepted(h, f, f', pk, nk, tnk, k, q);
    assert c.Keys <= (c - {k}).Keys + (if k in c then {k} else {});
  }

  lemma AcceptedGrows(h: Hashes, f: Filter, f': Filter, pk: set<Key>, nk: set<Key>, k: Key)
    requires f.Ok() && f'.Ok() && SameGeometry(f, f') && EntriesMatch(h, f, pk) && EntriesMatch(h, f', pk + {k})
    ensures Accepted(h, f, nk) <= Accepted(h, f', nk)
  {
    hide Filter.Ok, EntriesMatch, Lookup, EntryOf;
    forall x | x in Accepted(h, f, nk) ensures x in Accepted(h, f', nk) {
      AcceptChange(h, f, f', pk, k, x);
    }
  }

  lemma TakenAccepted(h: Hashes, f: Filter, f': Filter, pk: set<Key>, nk: set<Key>, tnk: seq<seq<Key>>, k: Key, r: nat)
    requires f.Ok() && f'.Ok() && SameGeometry(f, f') && EntriesMatch(h, f, pk) && EntriesMatch(h, f', pk + {k})
    requires Tabled(h, f, tnk, Rejected(h, f, nk)) && r < |tnk| == f.n
    ensures Taken(h, f', tnk[r]) <= Accepted(h, f', nk)
  {
    hide Filter.Ok, EntriesMatch, Tabled, Lookup, EntryOf, Rejected;
    forall x | x in Taken(h, f', tnk[r]) ensures x in Accepted(h, f', nk) {
      Waiting(h, f, f', pk, nk, tnk, k, r, x);
    }
  }

  /** and nothing is missing. */
  lemma JoinedKeys(h: Hashes, f: Filter, c: map<Key, nat>, pk: set<Key>, nk: set<Key>,
                   tnk: seq<seq<Key>>, fpk: seq<seq<Key>>, k: Key)
    requires Exact(h, f, c[k := 1], pk + {k}, nk, tnk, fpk) && k !in pk && k !in nk
    ensures c.Keys == Joining(h, f, pk, nk, k, k in c)
  {
    hide Filter.Ok, Lookup, EntriesMatch, Tabled, CellsCounted;
    forall x ensures x in c <==> x in Joining(h, f, pk, nk, k, k in c) {
      assert x in c[k := 1] <==> x in pk + {k} || (x in nk && Lookup(h, f, x));
    }
  }

  /** An accepted negative key joins, a rejected one does not. */
  lemma OneMoreNegative(h: Hashes, f: Filter, pk: set<Key>, nk: set<Key>, k: Key)
    requires f.Ok()
    ensures OthelloKeys(h, f, pk, nk + {k}) ==
              if Lookup(h, f, k) then OthelloKeys(h, f, pk, nk) + {k} else OthelloKeys(h, f, pk, nk)
  {
    hide Filter.Ok, Lookup;
    SplitWith(h, f, nk, k);
  }

  /** With `k` put in, the keys are those of the positive set with `k`. */
  lemma JoiningAll(h: Hashes, f: Filter, pk: set<Key>, nk: set<Key>, k: Key, stored: bool)
    requires f.Ok()
    ensures Joining(h, f, pk, nk, k, stored) + {k} == OthelloKeys(h, f, pk + {k}, nk)
    ensures stored ==> Joining(h, f, pk, nk, k, stored) == OthelloKeys(h, f, pk + {k}, nk)
  {
    hide Filter.Ok, Lookup, Accepted;
  }

  /** A value that is odd but not 1 is misread when the filter accepts its key, for instance
      because a positive key shares its entry: the key is negative and stored as 1. */
  lemma OddValueMisread(h: Hashes, f: Filter, c: map<Key, nat>, pk: set<Key>, nk: set<Key>,
                        tnk: seq<seq<Key>>, fpk: seq<seq<Key>>, a: Key, b: Key)
    requires Exact(h, f, c, pk, nk, tnk, fpk) && a in pk && b !in pk && b !in nk
    requires EntryOf(h, f, a) == EntryOf(h, f, b)
    ensures Lookup(h, f, b) && KeysMatch(h, f, c[b := 3], pk, nk + {b}) && !ValuesMatch(c[b := 3], pk)
  {
    hide Filter.Ok, Lookup, EntriesMatch, KeysMatch, ValuesMatch, Tabled, EntryOf, CellsCounted, Bit, Rejected;
    hide Accepted;
    Accepts(h, f, pk, b);
    NegativeKept(h, f, c, pk, nk, b, 3);
    OddIsPositive(c, pk, b);
  }

  lemma NegativeKept(h: Hashes, f: Filter, c: map<Key, nat>, pk: set<Key>, nk: set<Key>, k: Key, v: nat)
    requires f.Ok() && KeysMatch(h, f, c, pk, nk) && Lookup(h, f, k)
    ensures KeysMatch(h, f, c[k := v], pk, nk + {k})
  {
    hide Filter.Ok, Lookup;
  }

  lemma OddIsPositive(c: map<Key, nat>, pk: set<Key>, k: Key)
    requires k !in pk
    ensures !ValuesMatch(c[k := 3], pk)
  {
    assert Bit(3, 0);
    assert c[k := 3][k] == 3;
  }

  /** With a hash function that maps all elements to one, any two keys are such a pair. */
  lemma OneEntryForAll(h: Hashes, f: Filter, a: Key, b: Key)
    requires f.Ok() && forall x, y :: h.mix(x) == h.mix(y)
    ensures EntryOf(h, f, a) == EntryOf(h, f, b)
  {
    hide Filter.Ok, EntryAt;
    assert h.mix(a) == h.mix(b);
  }
}
