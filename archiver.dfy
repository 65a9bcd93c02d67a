/** The timer-triggered archiver: it walks the records that the hot-store
    query returned, copies each to a date-partitioned blob unless a blob is
    already there, and marks the hot copy for expiry with `ttl = 1`.

    The stores are maps (hot: record id to item, cold: blob name to the
    record that the blob holds as JSON). The candidates the query returns
    are an input, and so is the one exception, if any, that a storage call
    raises during the run. */
module Archiver {
  import opened Records

  // ---------------------------------------------------------------------
  // Blob names: `YYYY/MM/DD/<id>.json`
  // ---------------------------------------------------------------------

  predicate IsDigits(s: string) {
    forall i :: 0 <= i < |s| ==> '0' <= s[i] <= '9'
  }

  function Pow10(w: nat): (p: nat)
    ensures p >= 1
  {
    if w == 0 then 1 else 10 * Pow10(w - 1)
  }

  function DigitChar(d: nat): (c: char)
    requires d < 10
    ensures '0' <= c <= '9' && c as int - '0' as int == d
  {
    ('0' as int + d) as char
  }

  /** The last `width` decimal digits of `n`, zero-padded on the left. */
  function Digits(n: nat, width: nat): (s: string)
    ensures |s| == width && IsDigits(s)
  {
    if width == 0 then [] else Digits(n / 10, width - 1) + [DigitChar(n % 10)]
  }

  /** The number a string of decimal digits denotes. */
  function DecimalValue(s: string): (value: nat)
    requires IsDigits(s)
  {
    if s == [] then 0 else 10 * DecimalValue(s[..|s| - 1]) + (s[|s| - 1] as int - '0' as int)
  }

  /** Zero-padded formatting loses nothing for a number that fits the width. */
  lemma {:induction false} DigitsRoundTrip(n: nat, width: nat)
    requires n < Pow10(width)
    ensures DecimalValue(Digits(n, width)) == n
  {
    if width > 0 {
      var s := Digits(n, width);
      assert s[..|s| - 1] == Digits(n / 10, width - 1);
      DigitsRoundTrip(n / 10, width - 1);
    }
  }

  /** The blob name the archiver gives a record: its creation date as
      `strftime('%Y/%m/%d')` formats it, a '/', the id and `.json`. */
  function ColdKey(r: Record): (key: string)
    requires ValidDate(r.created)
  {
    var d := r.created;
    Digits(d.year, 4) + "/" + Digits(d.month, 2) + "/" + Digits(d.day, 2) + "/" + r.id + ".json"
  }

  /** The layout of a blob name: four digits spelling the year, two the
      month and two the day, separated by '/', then '/', the id and `.json`. */
  lemma ColdKeyLayout(r: Record)
    requires ValidDate(r.created)
    ensures var key := ColdKey(r);
      |key| == |r.id| + 16 &&
      key[4] == '/' && key[7] == '/' && key[10] == '/' &&
      IsDigits(key[..4]) && DecimalValue(key[..4]) == r.created.year &&
      IsDigits(key[5..7]) && DecimalValue(key[5..7]) == r.created.month &&
      IsDigits(key[8..10]) && DecimalValue(key[8..10]) == r.created.day &&
      key[11..11 + |r.id|] == r.id &&
      key[11 + |r.id|..] == ".json"
  {
    var d := r.created;
    var yyyy, mm, dd := Digits(d.year, 4), Digits(d.month, 2), Digits(d.day, 2);
    DigitsRoundTrip(d.year, 4);
    DigitsRoundTrip(d.month, 2);
    DigitsRoundTrip(d.day, 2);
    var key := ColdKey(r);
    assert key == yyyy + "/" + mm + "/" + dd + "/" + r.id + ".json";
    assert key[..4] == yyyy && key[5..7] == mm && key[8..10] == dd;
  }

  // ---------------------------------------------------------------------
  // What one run does, as functions of the stores before it
  // ---------------------------------------------------------------------

  /** Which storage call raises: the existence check or the upload of the
      blob, or the upsert of the hot item. */
  datatype FaultKind = ColdWriteFails | HotUpsertFails

  /** The exception a run meets, if any: the call of kind `kind` made for
      the candidate at position `index`. */
  datatype Fault = NoFault | FaultAt(index: nat, kind: FaultKind)

  /** Candidate `i` raises before its blob is written: its `createdAt` does
      not parse, or the existence check or the upload raises. */
  predicate RaisesBeforeWrite(candidates: seq<Record>, i: nat, fault: Fault)
    requires i < |candidates|
  {
    !ValidDate(candidates[i].created) || fault == FaultAt(i, ColdWriteFails)
  }

  /** Candidate `i` raises somewhere in its iteration of the loop. */
  predicate Raises(candidates: seq<Record>, i: nat, fault: Fault)
    requires i < |candidates|
  {
    RaisesBeforeWrite(candidates, i, fault) || fault == FaultAt(i, HotUpsertFails)
  }

  /** The position at which the run stops: the first candidate from `from`
      on whose iteration raises, or the end of the candidates. */
  function StopIndex(candidates: seq<Record>, fault: Fault, from: nat): (p: nat)
    requires from <= |candidates|
    ensures from <= p <= |candidates|
    ensures forall j :: from <= j < p ==> !Raises(candidates, j, fault)
    ensures p < |candidates| ==> Raises(candidates, p, fault)
    decreases |candidates| - from
  {
    if from == |candidates| || Raises(candidates, from, fault) then from
    else StopIndex(candidates, fault, from + 1)
  }

  predicate DatesValid(candidates: seq<Record>, n: nat)
    requires n <= |candidates|
  {
    forall j :: 0 <= j < n ==> ValidDate(candidates[j].created)
  }

  /** How many candidates have their blob written (or found present): those
      before the stop, and the stopping one too when it raised only at the
      upsert. */
  function WrittenUpTo(candidates: seq<Record>, fault: Fault): (w: nat)
    ensures StopIndex(candidates, fault, 0) <= w <= |candidates|
    ensures w <= StopIndex(candidates, fault, 0) + 1
    ensures DatesValid(candidates, w)
    ensures w == StopIndex(candidates, fault, 0) + 1 <==>
      StopIndex(candidates, fault, 0) < |candidates| &&
      !RaisesBeforeWrite(candidates, StopIndex(candidates, fault, 0), fault)
    ensures w == StopIndex(candidates, fault, 0) + 1 ==> fault == FaultAt(w - 1, HotUpsertFails)
  {
    var p := StopIndex(candidates, fault, 0);
    DatesValidBeforeStop(candidates, fault);
    if p < |candidates| && !RaisesBeforeWrite(candidates, p, fault) then p + 1 else p
  }

  lemma DatesValidBeforeStop(candidates: seq<Record>, fault: Fault)
    ensures DatesValid(candidates, StopIndex(candidates, fault, 0))
  {
    forall j | 0 <= j < StopIndex(candidates, fault, 0) ensures ValidDate(candidates[j].created) {
      assert !Raises(candidates, j, fault);
    }
  }

  /** The blob write of one record: upload only when no blob has its name. */
  function WriteIfAbsent(cold: map<string, Record>, r: Record): (cold': map<string, Record>)
    requires ValidDate(r.created)
  {
    var key := ColdKey(r);
    if key in cold then cold else cold[key := r]
  }

  /** The cold store after the blob writes of the first `n` candidates. */
  function Writes(cold: map<string, Record>, candidates: seq<Record>, n: nat): (cold': map<string, Record>)
    requires n <= |candidates| && DatesValid(candidates, n)
  {
    if n == 0 then cold else WriteIfAbsent(Writes(cold, candidates, n - 1), candidates[n - 1])
  }

  /** The value of `archived_count` after the first `n` candidates: how many
      of them found no blob at their name and uploaded one. */
  function NewWrites(cold: map<string, Record>, candidates: seq<Record>, n: nat): (count: nat)
    requires n <= |candidates| && DatesValid(candidates, n)
    ensures count <= n
  {
    if n == 0 then 0
    else
      var isNew := ColdKey(candidates[n - 1]) !in Writes(cold, candidates, n - 1);
      NewWrites(cold, candidates, n - 1) + (if isNew then 1 else 0)
  }

  /** The hot item as upserted back: the record with `ttl` set to 1. */
  function MarkForExpiry(r: Record): (marked: Record) {
    r.(ttl := Some(1))
  }

  /** The hot store after the TTL upserts of the first `n` candidates. */
  function Upserts(hot: map<string, Record>, candidates: seq<Record>, n: nat): (hot': map<string, Record>)
    requires n <= |candidates|
  {
    if n == 0 then hot
    else Upserts(hot, candidates, n - 1)[candidates[n - 1].id := MarkForExpiry(candidates[n - 1])]
  }

  // ---------------------------------------------------------------------
  // The run itself
  // ---------------------------------------------------------------------

  /** The two stores the archiver connects to. */
  class TieredStores {
    var hot: map<string, Record>
    var cold: map<string, Record>

    constructor (hot0: map<string, Record>, cold0: map<string, Record>)
      ensures hot == hot0 && cold == cold0
    {
      hot := hot0;
      cold := cold0;
    }

    /** One run of the archiver over the records its query returned. The
        whole loop sits inside one `try`: the first exception ends the run
        (`completed` false) and leaves the stores as they are at that point. */
    method ArchiveOldRecords(candidates: seq<Record>, fault: Fault) returns (archivedCount: nat, completed: bool)
      modifies this
      ensures completed <==> StopIndex(candidates, fault, 0) == |candidates|
      ensures hot == Upserts(old(hot), candidates, StopIndex(candidates, fault, 0))
      ensures cold == Writes(old(cold), candidates, WrittenUpTo(candidates, fault))
      ensures archivedCount == NewWrites(old(cold), candidates, WrittenUpTo(candidates, fault))
    {
      archivedCount := 0;
      completed := false;
      var i := 0;
      while i < |candidates|
        invariant i <= |candidates|
        invariant forall j :: 0 <= j < i ==> !Raises(candidates, j, fault)
        invariant DatesValid(candidates, i)
        invariant hot == Upserts(old(hot), candidates, i)
        invariant cold == Writes(old(cold), candidates, i)
        invariant archivedCount == NewWrites(old(cold), candidates, i)
      {
        var record := candidates[i];
        if !ValidDate(record.created) || fault == FaultAt(i, ColdWriteFails) {
          // `fromisoformat`, `exists` or `upload_blob` raised
          assert Raises(candidates, i, fault);
          assert StopIndex(candidates, fault, 0) == i == WrittenUpTo(candidates, fault);
          return;
        }
        assert DatesValid(candidates, i + 1);
        var blobName := ColdKey(record);
        if blobName !in cold {
          cold := cold[blobName := record];
          archivedCount := archivedCount + 1;
        }
        if fault == FaultAt(i, HotUpsertFails) {
          // `upsert_item` raised after the blob was handled
          assert Raises(candidates, i, fault);
          assert StopIndex(candidates, fault, 0) == i && WrittenUpTo(candidates, fault) == i + 1;
          return;
        }
        hot := hot[record.id := MarkForExpiry(record)];
        i := i + 1;
      }
      completed := true;
    }
  }

  // ---------------------------------------------------------------------
  // Properties of a run
  // ---------------------------------------------------------------------

  /** The blob writes never replace or remove an existing blob. */
  lemma {:induction false} ExistingBlobsUnchanged(cold: map<string, Record>, candidates: seq<Record>, n: nat)
    requires n <= |candidates| && DatesValid(candidates, n)
    ensures forall k :: k in cold ==> k in Writes(cold, candidates, n) && Writes(cold, candidates, n)[k] == cold[k]
  {
    if n > 0 {
      ExistingBlobsUnchanged(cold, candidates, n - 1);
    }
  }

  /** `archived_count` is exactly how much the cold store grew: each counted
      write adds one blob name and nothing else adds any. */
  lemma {:induction false} CountIsColdGrowth(cold: map<string, Record>, candidates: seq<Record>, n: nat)
    requires n <= |candidates| && DatesValid(candidates, n)
    ensures |Writes(cold, candidates, n)| == |cold| + NewWrites(cold, candidates, n)
  {
    if n > 0 {
      CountIsColdGrowth(cold, candidates, n - 1);
      var prev := Writes(cold, candidates, n - 1);
      var key := ColdKey(candidates[n - 1]);
      if key !in prev {
        assert Writes(cold, candidates, n) == prev[key := candidates[n - 1]];
        assert |prev[key := candidates[n - 1]]| == |prev| + 1;
      } else {
        assert Writes(cold, candidates, n) == prev;
      }
    }
  }

  /** After the blob writes of the first `n` candidates every one of them has
      a blob at its name; a blob that one of them created holds that record
      as it was before its `ttl` was set, provided no earlier candidate had
      the same name. */
  lemma {:induction false} WritesArchiveEachCandidate(cold: map<string, Record>, candidates: seq<Record>, n: nat, j: nat)
    requires n <= |candidates| && DatesValid(candidates, n) && j < n
    ensures ColdKey(candidates[j]) in Writes(cold, candidates, n)
    ensures ColdKey(candidates[j]) !in cold &&
            (forall l :: 0 <= l < j ==> ColdKey(candidates[l]) != ColdKey(candidates[j])) ==>
              Writes(cold, candidates, n)[ColdKey(candidates[j])] == candidates[j]
  {
    var key := ColdKey(candidates[j]);
    if j < n - 1 {
      WritesArchiveEachCandidate(cold, candidates, n - 1, j);
    } else if key !in cold && (forall l :: 0 <= l < j ==> ColdKey(candidates[l]) != key) {
      WritesLeaveOtherNames(cold, candidates, n - 1, key);
    }
  }

  /** A name that none of the first `n` candidates maps to keeps whatever the
      cold store had under it. */
  lemma {:induction false} WritesLeaveOtherNames(cold: map<string, Record>, candidates: seq<Record>, n: nat, key: string)
    requires n <= |candidates| && DatesValid(candidates, n)
    requires forall l :: 0 <= l < n ==> ColdKey(candidates[l]) != key
    ensures key in Writes(cold, candidates, n) <==> key in cold
    ensures key in cold ==> Writes(cold, candidates, n)[key] == cold[key]
  {
    if n > 0 {
      WritesLeaveOtherNames(cold, candidates, n - 1, key);
    }
  }

  /** Every entry of the cold store after the writes is either an entry that
      was there before or a candidate stored under its own name. */
  lemma {:induction false} WritesComeFromCandidates(cold: map<string, Record>, candidates: seq<Record>, n: nat, key: string)
    requires n <= |candidates| && DatesValid(candidates, n)
    requires key in Writes(cold, candidates, n)
    ensures (key in cold && Writes(cold, candidates, n)[key] == cold[key]) ||
            exists l :: 0 <= l < n && key == ColdKey(candidates[l]) && Writes(cold, candidates, n)[key] == candidates[l]
  {
    if n > 0 {
      var prev := Writes(cold, candidates, n - 1);
      if key in prev {
        WritesComeFromCandidates(cold, candidates, n - 1, key);
      } else {
        assert key == ColdKey(candidates[n - 1]);
      }
    }
  }

  /** When every candidate already has a blob, the writes change nothing and
      count nothing. */
  lemma {:induction false} WritesNothingWhenArchived(cold: map<string, Record>, candidates: seq<Record>, n: nat)
    requires n <= |candidates| && DatesValid(candidates, n)
    requires forall j :: 0 <= j < n ==> ColdKey(candidates[j]) in cold
    ensures Writes(cold, candidates, n) == cold
    ensures NewWrites(cold, candidates, n) == 0
  {
    if n > 0 {
      WritesNothingWhenArchived(cold, candidates, n - 1);
    }
  }

  /** Every candidate whose upsert ran has `ttl = 1` in the hot store, and a
      record id that none of them carries is untouched. */
  lemma {:induction false} UpsertsMarkExactlyTheProcessed(hot: map<string, Record>, candidates: seq<Record>, n: nat, id: string)
    requires n <= |candidates|
    ensures (exists j :: 0 <= j < n && candidates[j].id == id) ==>
              id in Upserts(hot, candidates, n) && Upserts(hot, candidates, n)[id].ttl == Some(1) &&
              exists j :: 0 <= j < n && candidates[j].id == id && Upserts(hot, candidates, n)[id] == MarkForExpiry(candidates[j])
    ensures (forall j :: 0 <= j < n ==> candidates[j].id != id) ==>
              (id in Upserts(hot, candidates, n) <==> id in hot) &&
              (id in hot ==> Upserts(hot, candidates, n)[id] == hot[id])
  {
    if n > 0 {
      UpsertsMarkExactlyTheProcessed(hot, candidates, n - 1, id);
    }
  }

  /** The upserts of a run amount to overriding the old hot store with the
      map that the same upserts build from nothing. */
  lemma {:induction false} UpsertsOverride(hot: map<string, Record>, candidates: seq<Record>, n: nat)
    requires n <= |candidates|
    ensures Upserts(hot, candidates, n) == hot + Upserts(map[], candidates, n)
  {
    if n > 0 {
      UpsertsOverride(hot, candidates, n - 1);
      UpsertsOverride(map[], candidates, n - 1);
    }
  }

  /** A run that stops at candidate `p` (the upsert or the blob write of `p`
      raised) has not set the `ttl` of any record from `p` on whose id no
      earlier candidate carries, and the cold store holds nothing new beyond
      the names of the candidates it reached. */
  lemma NoPrematureRetirement(hot: map<string, Record>, cold: map<string, Record>, candidates: seq<Record>, fault: Fault, id: string, key: string)
    requires forall j :: 0 <= j < StopIndex(candidates, fault, 0) ==> candidates[j].id != id
    requires forall j :: 0 <= j < WrittenUpTo(candidates, fault) ==> ColdKey(candidates[j]) != key
    ensures var hot' := Upserts(hot, candidates, StopIndex(candidates, fault, 0));
            (id in hot' <==> id in hot) && (id in hot ==> hot'[id] == hot[id])
    ensures var cold' := Writes(cold, candidates, WrittenUpTo(candidates, fault));
            (key in cold' <==> key in cold) && (key in cold ==> cold'[key] == cold[key])
  {
    UpsertsMarkExactlyTheProcessed(hot, candidates, StopIndex(candidates, fault, 0), id);
    WritesLeaveOtherNames(cold, candidates, WrittenUpTo(candidates, fault), key);
  }

  /** When the blob write of candidate `k` raises, neither `k` nor any later
      candidate is upserted: the stop is at `k` at the latest, and the blob
      of `k` is not written. */
  lemma ColdWriteFailureStopsRun(candidates: seq<Record>, k: nat)
    requires k < |candidates|
    ensures StopIndex(candidates, FaultAt(k, ColdWriteFails), 0) <= k
    ensures WrittenUpTo(candidates, FaultAt(k, ColdWriteFails)) <= k
  {
    var fault := FaultAt(k, ColdWriteFails);
    assert Raises(candidates, k, fault);
  }

  /** Running the archiver a second time over the same candidates, after a
      run that completed, uploads no blob, counts 0, and leaves both stores
      as the first run left them. */
  lemma RerunIsIdempotent(hot: map<string, Record>, cold: map<string, Record>, candidates: seq<Record>)
    requires StopIndex(candidates, NoFault, 0) == |candidates|
    ensures DatesValid(candidates, |candidates|)
    ensures var n := |candidates|;
            var hot1, cold1 := Upserts(hot, candidates, n), Writes(cold, candidates, n);
            WrittenUpTo(candidates, NoFault) == n &&
            Writes(cold1, candidates, n) == cold1 &&
            NewWrites(cold1, candidates, n) == 0 &&
            Upserts(hot1, candidates, n) == hot1
  {
    var n := |candidates|;
    DatesValidBeforeStop(candidates, NoFault);
    var cold1 := Writes(cold, candidates, n);
    forall j | 0 <= j < n ensures ColdKey(candidates[j]) in cold1 {
      WritesArchiveEachCandidate(cold, candidates, n, j);
    }
    WritesNothingWhenArchived(cold1, candidates, n);
    var hot1 := Upserts(hot, candidates, n);
    var marks := Upserts(map[], candidates, n);
    UpsertsOverride(hot, candidates, n);
    UpsertsOverride(hot1, candidates, n);
    assert hot1 + marks == (hot + marks) + marks;
  }

  /** What the age query returns on a run after a completed one: the hot
      copies of the same records, which that run marked with `ttl = 1`. */
  function MarkedCopies(candidates: seq<Record>): seq<Record> {
    seq(|candidates|, j requires 0 <= j < |candidates| => MarkForExpiry(candidates[j]))
  }

  /** The TTL upserts depend on each candidate only through its marked copy. */
  lemma {:induction false} UpsertsSeeOnlyMarkedCopies(hot: map<string, Record>, c: seq<Record>, d: seq<Record>, n: nat)
    requires n <= |c| && n <= |d|
    requires forall j :: 0 <= j < n ==> MarkForExpiry(c[j]) == MarkForExpiry(d[j])
    ensures Upserts(hot, c, n) == Upserts(hot, d, n)
  {
    if n > 0 {
      UpsertsSeeOnlyMarkedCopies(hot, c, d, n - 1);
      assert c[n - 1].id == MarkForExpiry(c[n - 1]).id == MarkForExpiry(d[n - 1]).id == d[n - 1].id;
    }
  }

  /** A run after a completed run, over the hot copies it marked (whose `ttl`
      is now 1), also completes, uploads nothing, counts 0 and changes neither
      store: the blob name ignores `ttl`, and marking twice marks once. */
  lemma RerunOverMarkedCopiesIsIdempotent(hot: map<string, Record>, cold: map<string, Record>, candidates: seq<Record>)
    requires StopIndex(candidates, NoFault, 0) == |candidates|
    ensures DatesValid(candidates, |candidates|)
    ensures var again := MarkedCopies(candidates);
            StopIndex(again, NoFault, 0) == |again| && DatesValid(again, |again|)
    ensures var n, again := |candidates|, MarkedCopies(candidates);
            var hot1, cold1 := Upserts(hot, candidates, n), Writes(cold, candidates, n);
            WrittenUpTo(again, NoFault) == n &&
            Writes(cold1, again, n) == cold1 &&
            NewWrites(cold1, again, n) == 0 &&
            Upserts(hot1, again, n) == hot1
  {
    var n, again := |candidates|, MarkedCopies(candidates);
    RerunIsIdempotent(hot, cold, candidates);
    assert forall j :: 0 <= j < n ==> again[j].created == candidates[j].created;
    assert forall j :: 0 <= j < n ==> !Raises(again, j, NoFault);
    var cold1 := Writes(cold, candidates, n);
    forall j | 0 <= j < n ensures ColdKey(again[j]) in cold1 {
      WritesArchiveEachCandidate(cold, candidates, n, j);
      assert ColdKey(again[j]) == ColdKey(candidates[j]);
    }
    WritesNothingWhenArchived(cold1, again, n);
    UpsertsSeeOnlyMarkedCopies(Upserts(hot, candidates, n), candidates, again, n);
  }
}
