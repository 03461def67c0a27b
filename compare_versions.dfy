/** app/compare-versions/page.tsx: joins two constituency snapshots A and B candidate by
    candidate under the key `zone_id-candidate_no`, orders the union of keys by province,
    zone and candidate number, and reports each candidate's votes in both snapshots. */
module CompareVersions {
  import opened Wrappers
  import opened Text
  import opened Collections
  import opened Ordering
  import opened ElectionTypes

  /** What the candidate map stores under a key: the zone and the candidate. */
  datatype CandidateEntry = CandidateEntry(zone: InfoZone, candidate: Candidate)

  type CandidateMap = JsMap<string, CandidateEntry>

  /** One table row of the comparison. */
  datatype JoinedRow = JoinedRow(
    key: string,
    zone: InfoZone,
    candidate: Candidate,
    votesA: int,
    votesB: int,
    diff: int)

  /** The page's summary line. */
  datatype VersionTotals = VersionTotals(totalVotesA: int, totalVotesB: int, totalVotesDiff: int)

  /** `${zone_id}-${candidate_no}`. */
  function CandidateKey(zoneId: string, candidateNo: nat): string
  {
    zoneId + "-" + NatToString(candidateNo)
  }

  function KeyOf(e: CandidateEntry): string
  {
    CandidateKey(e.zone.zoneId, e.candidate.candidateNo)
  }

  /** The entries of one zone, one per candidate, in `data` order. */
  function ZoneEntries(item: ZoneControlItem): (es: seq<CandidateEntry>)
    ensures |es| == |item.data|
    ensures forall j :: 0 <= j < |es| ==> es[j].zone == item.infoZone && es[j].candidate == item.data[j]
  {
    seq(|item.data|, j requires 0 <= j < |item.data| => CandidateEntry(item.infoZone, item.data[j]))
  }

  /** The entries of a snapshot in the order the nested loops visit them. */
  function Entries(items: seq<ZoneControlItem>): seq<CandidateEntry>
    decreases |items|
  {
    if items == [] then [] else Entries(items[..|items| - 1]) + ZoneEntries(items[|items| - 1])
  }

  /** The map after `map.set(key, entry)` for every entry in turn. */
  function IndexOf(es: seq<CandidateEntry>): (m: CandidateMap)
    ensures WellFormed(m)
    decreases |es|
  {
    if es == [] then JsMap(map[], [])
    else MapSet(IndexOf(es[..|es| - 1]), KeyOf(es[|es| - 1]), es[|es| - 1])
  }

  /** The map `buildCandidateMap` returns for a snapshot. */
  function CandidateIndex(items: seq<ZoneControlItem>): CandidateMap
  {
    IndexOf(Entries(items))
  }

  /** Setting one more entry is one more `map.set`. */
  lemma IndexOfSnoc(es: seq<CandidateEntry>, e: CandidateEntry)
    ensures IndexOf(es + [e]) == MapSet(IndexOf(es), KeyOf(e), e)
  {
    assert (es + [e])[..|es|] == es;
  }

  /** The entries of one more zone follow those of the zones before it. */
  lemma EntriesSnoc(items: seq<ZoneControlItem>, z: nat)
    requires z < |items|
    ensures Entries(items[..z + 1]) == Entries(items[..z]) + ZoneEntries(items[z])
  {
    assert items[..z + 1][..z] == items[..z];
  }

  /** `buildCandidateMap`: a fresh map, filled by nested loops over zones and candidates. */
  method BuildCandidateMap(items: seq<ZoneControlItem>) returns (map': CandidateMap)
    ensures map' == CandidateIndex(items)
  {
    map' := JsMap(map[], []);
    for z := 0 to |items|
      invariant map' == IndexOf(Entries(items[..z]))
    {
      map' := SetZoneCandidates(map', items[z], Entries(items[..z]));
      EntriesSnoc(items, z);
    }
    assert items[..|items|] == items;
  }

  /** The inner loop of `buildCandidateMap`: `map.set` for each candidate of one zone. */
  method SetZoneCandidates(map0: CandidateMap, zone: ZoneControlItem, ghost done: seq<CandidateEntry>)
    returns (map': CandidateMap)
    requires map0 == IndexOf(done)
    ensures map' == IndexOf(done + ZoneEntries(zone))
  {
    map' := map0;
    ghost var es := ZoneEntries(zone);
    assert done + es[..0] == done;
    for c := 0 to |zone.data|
      invariant map' == IndexOf(done + es[..c])
    {
      var candidate := zone.data[c];
      var key := CandidateKey(zone.infoZone.zoneId, candidate.candidateNo);
      IndexOfPrefixStep(done, es, c);
      map' := MapSet(map', key, CandidateEntry(zone.infoZone, candidate));
    }
    assert es[..|zone.data|] == es;
  }

  /** One more entry of a run being set is one more `map.set`. */
  lemma IndexOfPrefixStep(done: seq<CandidateEntry>, es: seq<CandidateEntry>, c: nat)
    requires c < |es|
    ensures IndexOf(done + es[..c + 1]) == MapSet(IndexOf(done + es[..c]), KeyOf(es[c]), es[c])
  {
    PrefixSnoc(es, c);
    assert done + es[..c + 1] == (done + es[..c]) + [es[c]];
    IndexOfSnoc(done + es[..c], es[c]);
  }

  /** An empty snapshot gives an empty map. */
  lemma CandidateIndexEmpty()
    ensures CandidateIndex([]) == JsMap(map[], [])
  {
  }

  /** Every entry gets its key in the map. */
  lemma {:induction false} IndexOfKeys(es: seq<CandidateEntry>)
    ensures forall i :: 0 <= i < |es| ==> KeyOf(es[i]) in IndexOf(es).entries
    decreases |es|
  {
    if es != [] {
      var init := es[..|es| - 1];
      IndexOfKeys(init);
      forall i | 0 <= i < |es| - 1
        ensures es[i] == init[i]
      {
      }
    }
  }

  /** Every stored entry is one of the entries, under its own key. */
  lemma {:induction false} IndexOfStored(es: seq<CandidateEntry>)
    ensures forall k :: k in IndexOf(es).entries ==> IndexOf(es).entries[k] in es && KeyOf(IndexOf(es).entries[k]) == k
    decreases |es|
  {
    if es != [] {
      var init, last := es[..|es| - 1], es[|es| - 1];
      IndexOfStored(init);
      forall k | k in IndexOf(es).entries
        ensures IndexOf(es).entries[k] in es && KeyOf(IndexOf(es).entries[k]) == k
      {
        if k != KeyOf(last) {
          var e := IndexOf(init).entries[k];
          var i :| 0 <= i < |init| && init[i] == e;
          assert es[i] == e;
        }
      }
    }
  }

  /** The entry stored under a key is the last entry with that key. */
  lemma {:induction false} IndexOfLastWins(es: seq<CandidateEntry>)
    ensures forall i :: 0 <= i < |es| && (forall j :: i < j < |es| ==> KeyOf(es[j]) != KeyOf(es[i]))
                        ==> KeyOf(es[i]) in IndexOf(es).entries && IndexOf(es).entries[KeyOf(es[i])] == es[i]
    decreases |es|
  {
    IndexOfKeys(es);
    if es != [] {
      var init, last := es[..|es| - 1], es[|es| - 1];
      IndexOfLastWins(init);
      forall i | 0 <= i < |es| - 1 && (forall j :: i < j < |es| ==> KeyOf(es[j]) != KeyOf(es[i]))
        ensures IndexOf(es).entries[KeyOf(es[i])] == es[i]
      {
        assert es[i] == init[i] && KeyOf(last) != KeyOf(es[i]);
        assert forall j :: i < j < |init| ==> init[j] == es[j];
      }
    }
  }

  /** The key of each entry, in entry order. */
  function EntryKeys(es: seq<CandidateEntry>): (ks: seq<string>)
    ensures |ks| == |es| && forall i :: 0 <= i < |es| ==> ks[i] == KeyOf(es[i])
    decreases |es|
  {
    if es == [] then [] else EntryKeys(es[..|es| - 1]) + [KeyOf(es[|es| - 1])]
  }

  /** The map's key order is the order in which keys were first set. */
  lemma {:induction false} IndexOfKeyOrder(es: seq<CandidateEntry>)
    ensures IndexOf(es).keys == Dedup(EntryKeys(es))
    decreases |es|
  {
    if es != [] {
      var init, last := es[..|es| - 1], es[|es| - 1];
      IndexOfKeyOrder(init);
      DedupSnoc(EntryKeys(init), KeyOf(last));
      assert KeyOf(last) in IndexOf(init).entries <==> KeyOf(last) in Dedup(EntryKeys(init));
    }
  }

  /** The entries of a snapshot are exactly its (zone, candidate) pairs. */
  lemma {:induction false} EntriesOfZones(items: seq<ZoneControlItem>)
    ensures forall i, j :: 0 <= i < |items| && 0 <= j < |items[i].data|
              ==> CandidateEntry(items[i].infoZone, items[i].data[j]) in Entries(items)
    ensures forall e :: e in Entries(items) ==> exists i :: 0 <= i < |items| && e.zone == items[i].infoZone && e.candidate in items[i].data
    decreases |items|
  {
    if items != [] {
      var init, last := items[..|items| - 1], items[|items| - 1];
      EntriesOfZones(init);
      forall i, j | 0 <= i < |items| && 0 <= j < |items[i].data|
        ensures CandidateEntry(items[i].infoZone, items[i].data[j]) in Entries(items)
      {
        if i < |init| {
          assert items[i] == init[i];
        } else {
          assert ZoneEntries(last)[j] == CandidateEntry(items[i].infoZone, items[i].data[j]);
        }
      }
      forall e | e in Entries(items)
        ensures exists i :: 0 <= i < |items| && e.zone == items[i].infoZone && e.candidate in items[i].data
      {
        if e in Entries(init) {
          var i :| 0 <= i < |init| && e.zone == init[i].infoZone && e.candidate in init[i].data;
          assert items[i] == init[i];
        } else {
          assert e in ZoneEntries(last);
          var j :| 0 <= j < |ZoneEntries(last)| && ZoneEntries(last)[j] == e;
          assert e.candidate == last.data[j];
          assert items[|items| - 1] == last;
        }
      }
    }
  }

  /** Every candidate of every zone of a snapshot has an entry in its candidate map, and
      every stored entry is a candidate of a zone of the snapshot, under its own key. */
  lemma CandidateIndexCovers(items: seq<ZoneControlItem>)
    ensures forall i, j :: 0 <= i < |items| && 0 <= j < |items[i].data|
              ==> CandidateKey(items[i].infoZone.zoneId, items[i].data[j].candidateNo) in CandidateIndex(items).entries
    ensures forall k :: k in CandidateIndex(items).entries ==>
              KeyOf(CandidateIndex(items).entries[k]) == k
              && exists i :: 0 <= i < |items| && CandidateIndex(items).entries[k].zone == items[i].infoZone
                             && CandidateIndex(items).entries[k].candidate in items[i].data
  {
    var es := Entries(items);
    EntriesOfZones(items);
    IndexOfKeys(es);
    IndexOfStored(es);
    forall i, j | 0 <= i < |items| && 0 <= j < |items[i].data|
      ensures CandidateKey(items[i].infoZone.zoneId, items[i].data[j].candidateNo) in CandidateIndex(items).entries
    {
      var e := CandidateEntry(items[i].infoZone, items[i].data[j]);
      assert e in es;
      var n :| 0 <= n < |es| && es[n] == e;
    }
  }

  /** The candidate number read back from a key: the second `-`-separated piece. */
  function CandidateNoOfKey(key: string): Option<nat>
  {
    var parts := Split(key, '-');
    if |parts| < 2 then None else ParseNat(parts[1])
  }

  /** When the zone id has no `-`, the second piece of the key is the candidate number
      that built it. */
  lemma CandidateNoOfKeyRoundTrip(zoneId: string, candidateNo: nat)
    requires '-' !in zoneId
    ensures Split(CandidateKey(zoneId, candidateNo), '-') == [zoneId, NatToString(candidateNo)]
    ensures CandidateNoOfKey(CandidateKey(zoneId, candidateNo)) == Some(candidateNo)
  {
    var digits := NatToString(candidateNo);
    assert forall i :: 0 <= i < |digits| ==> digits[i] != '-';
    assert Join([zoneId, digits], '-') == CandidateKey(zoneId, candidateNo);
    SplitJoin([zoneId, digits], '-');
    ParseNatToString(candidateNo);
  }

  /** The entry the comparator reads for a key: A's when present, otherwise B's. */
  function EntryOf(key: string, mapA: CandidateMap, mapB: CandidateMap): CandidateEntry
    requires key in mapA.entries || key in mapB.entries
  {
    if key in mapA.entries then mapA.entries[key] else mapB.entries[key]
  }

  /** The fields the key comparator compares: province id, zone number, candidate number
      (a candidate part that is not a number ranks as 0). */
  function KeyRank(key: string, mapA: CandidateMap, mapB: CandidateMap): (r: seq<int>)
    ensures key in mapA.entries || key in mapB.entries ==> |r| == 3
  {
    if key in mapA.entries || key in mapB.entries then
      var e := EntryOf(key, mapA, mapB);
      [e.zone.provinceId, e.zone.zone, CandidateNoOfKey(key).GetOr(0)]
    else []
  }

  function KeyRanker(mapA: CandidateMap, mapB: CandidateMap): string -> seq<int>
  {
    key => KeyRank(key, mapA, mapB)
  }

  /** The comparator of `allKeys.sort`: province difference, then zone difference, then
      candidate-number difference; it orders keys exactly as their ranks compare. */
  function CompareKeys(ka: string, kb: string, mapA: CandidateMap, mapB: CandidateMap): (c: int)
    requires ka in mapA.entries || ka in mapB.entries
    requires kb in mapA.entries || kb in mapB.entries
    ensures c <= 0 <==> LexLe(KeyRank(ka, mapA, mapB), KeyRank(kb, mapA, mapB))
    ensures c == 0 <==> KeyRank(ka, mapA, mapB) == KeyRank(kb, mapA, mapB)
  {
    LexLeFields(KeyRank(ka, mapA, mapB), KeyRank(kb, mapA, mapB));
    var a := EntryOf(ka, mapA, mapB);
    var b := EntryOf(kb, mapA, mapB);
    var provinceDiff := a.zone.provinceId - b.zone.provinceId;
    if provinceDiff != 0 then provinceDiff
    else
      var zoneDiff := a.zone.zone - b.zone.zone;
      if zoneDiff != 0 then zoneDiff
      else CandidateNoOfKey(ka).GetOr(0) - CandidateNoOfKey(kb).GetOr(0)
  }

  /** `Array.from(new Set([...mapA.keys(), ...mapB.keys()])).sort(compareKeys)`. */
  function AllKeys(mapA: CandidateMap, mapB: CandidateMap): (keys: seq<string>)
    ensures forall k :: k in keys <==> k in mapA.keys || k in mapB.keys
  {
    var u := Dedup(mapA.keys + mapB.keys);
    var keys := SortBy(u, KeyRanker(mapA, mapB));
    assert forall k :: k in keys <==> k in mapA.keys || k in mapB.keys by {
      forall k
        ensures k in keys <==> k in mapA.keys || k in mapB.keys
      {
        assert k in keys <==> k in multiset(keys);
        assert k in u <==> k in multiset(u);
      }
    }
    keys
  }

  /** A permutation of a sequence without duplicates has none either. */
  lemma {:induction false} NoDuplicatesCount<T>(s: seq<T>, x: T)
    requires NoDuplicates(s)
    ensures multiset(s)[x] <= 1
    decreases |s|
  {
    if s != [] {
      var init := s[..|s| - 1];
      assert s == init + [s[|s| - 1]];
      assert NoDuplicates(init);
      NoDuplicatesCount(init, x);
      if x == s[|s| - 1] {
        assert x !in init;
      }
    }
  }

  lemma NoDuplicatesPermutation<T>(s: seq<T>, r: seq<T>)
    requires NoDuplicates(s) && multiset(r) == multiset(s)
    ensures NoDuplicates(r)
  {
    forall i, j | 0 <= i < j < |r|
      ensures r[i] != r[j]
    {
      if r[i] == r[j] {
        assert r == r[..j] + [r[j]] + r[j + 1..];
        assert r[i] in multiset(r[..j]);
        assert multiset(r)[r[j]] >= 2;
        NoDuplicatesCount(s, r[j]);
      }
    }
  }

  /** `allKeys` holds every key of either map exactly once, ordered by province, zone and
      candidate number (by A's zone where the key is in A, else B's). */
  lemma AllKeysSpec(mapA: CandidateMap, mapB: CandidateMap)
    requires WellFormed(mapA) && WellFormed(mapB)
    ensures forall k :: k in AllKeys(mapA, mapB) <==> k in mapA.entries || k in mapB.entries
    ensures NoDuplicates(AllKeys(mapA, mapB))
    ensures forall i, j :: 0 <= i < j < |AllKeys(mapA, mapB)| ==>
              CompareKeys(AllKeys(mapA, mapB)[i], AllKeys(mapA, mapB)[j], mapA, mapB) <= 0
  {
    var u := Dedup(mapA.keys + mapB.keys);
    var keys := AllKeys(mapA, mapB);
    NoDuplicatesPermutation(u, keys);
    forall i, j | 0 <= i < j < |keys|
      ensures CompareKeys(keys[i], keys[j], mapA, mapB) <= 0
    {
      assert keys[i] in keys && keys[j] in keys;
      assert KeyRanker(mapA, mapB)(keys[i]) == KeyRank(keys[i], mapA, mapB);
      assert KeyRanker(mapA, mapB)(keys[j]) == KeyRank(keys[j], mapA, mapB);
    }
  }

  /** One row of the table: zone and candidate from A when the key is in A, otherwise from
      B; each side's votes, 0 when the key is absent there; and B minus A. */
  function JoinRow(key: string, mapA: CandidateMap, mapB: CandidateMap): (r: JoinedRow)
    requires key in mapA.entries || key in mapB.entries
    ensures r.key == key
    ensures r.diff == r.votesB - r.votesA
    ensures key in mapA.entries ==> r.zone == mapA.entries[key].zone && r.candidate == mapA.entries[key].candidate
                                    && r.votesA == mapA.entries[key].candidate.vote
    ensures key !in mapA.entries ==> r.zone == mapB.entries[key].zone && r.candidate == mapB.entries[key].candidate
                                     && r.votesA == 0 && r.diff == r.votesB
    ensures key in mapB.entries ==> r.votesB == mapB.entries[key].candidate.vote
    ensures key !in mapB.entries ==> r.votesB == 0 && r.diff == -r.votesA
  {
    var a := if key in mapA.entries then Some(mapA.entries[key]) else None;
    var b := if key in mapB.entries then Some(mapB.entries[key]) else None;
    var shown := if a.Some? then a.value else b.value;
    var votesA := if a.Some? then a.value.candidate.vote else 0;
    var votesB := if b.Some? then b.value.candidate.vote else 0;
    JoinedRow(key, shown.zone, shown.candidate, votesA, votesB, votesB - votesA)
  }

  /** The table body: one row per key of `allKeys`, in that order. */
  function JoinedRows(mapA: CandidateMap, mapB: CandidateMap): (rows: seq<JoinedRow>)
    requires WellFormed(mapA) && WellFormed(mapB)
    ensures |rows| == |AllKeys(mapA, mapB)|
    ensures forall i :: 0 <= i < |rows| ==> rows[i] == JoinRow(AllKeys(mapA, mapB)[i], mapA, mapB)
  {
    var keys := AllKeys(mapA, mapB);
    seq(|keys|, i requires 0 <= i < |keys| => JoinRow(keys[i], mapA, mapB))
  }

  /** The summary line: each snapshot's total votes and B minus A. */
  function Totals(zoneA: seq<ZoneControlItem>, zoneB: seq<ZoneControlItem>): (t: VersionTotals)
    ensures t.totalVotesA == TotalVotes(zoneA) && t.totalVotesB == TotalVotes(zoneB)
    ensures t.totalVotesA + t.totalVotesDiff == t.totalVotesB
  {
    var totalVotesA := TotalVotes(zoneA);
    var totalVotesB := TotalVotes(zoneB);
    VersionTotals(totalVotesA, totalVotesB, totalVotesB - totalVotesA)
  }

  /** A candidate present in A only shows A's votes, B's as 0, and a diff of minus A's. */
  lemma OnlyInA(zoneA: seq<ZoneControlItem>, zoneB: seq<ZoneControlItem>, zoneId: string, candidateNo: nat)
    requires CandidateKey(zoneId, candidateNo) in CandidateIndex(zoneA).entries
    requires CandidateKey(zoneId, candidateNo) !in CandidateIndex(zoneB).entries
    ensures var key := CandidateKey(zoneId, candidateNo);
            var row := JoinRow(key, CandidateIndex(zoneA), CandidateIndex(zoneB));
            key in AllKeys(CandidateIndex(zoneA), CandidateIndex(zoneB))
            && row.votesB == 0 && row.diff == -CandidateIndex(zoneA).entries[key].candidate.vote
  {
    AllKeysSpec(CandidateIndex(zoneA), CandidateIndex(zoneB));
  }

  /** The page body for two snapshots: both candidate maps, the summary totals, and one
      row per key of either map in key order. */
  method CompareVersionsPage(zoneA: seq<ZoneControlItem>, zoneB: seq<ZoneControlItem>)
    returns (totals: VersionTotals, rows: seq<JoinedRow>)
    ensures totals.totalVotesA == TotalVotes(zoneA) && totals.totalVotesB == TotalVotes(zoneB)
    ensures totals.totalVotesDiff == totals.totalVotesB - totals.totalVotesA
    ensures rows == JoinedRows(CandidateIndex(zoneA), CandidateIndex(zoneB))
  {
    var mapA := BuildCandidateMap(zoneA);
    var mapB := BuildCandidateMap(zoneB);
    totals := Totals(zoneA, zoneB);
    rows := JoinedRows(mapA, mapB);
  }
}
