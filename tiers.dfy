/** How the three pieces fit together: the blob name the archiver writes is
    the one the retrieval function's suffix search finds, so a record read
    after its hot copy expired comes back from the archive as it was. */
module Tiers {
  import opened Records
  import opened Archiver
  import Retriever
  import ApiService

  /** Every blob name the archiver builds for a record passes the retrieval
      function's suffix test for that record's id. */
  lemma ArchivedKeyIsMatched(r: Record)
    requires ValidDate(r.created)
    ensures Retriever.Matches(ColdKey(r), r.id)
  {
    var d := r.created;
    var prefix := Digits(d.year, 4) + "/" + Digits(d.month, 2) + "/" + Digits(d.day, 2);
    var suffix := "/" + r.id + ".json";
    assert ColdKey(r) == prefix + suffix;
    assert (prefix + suffix)[|prefix + suffix| - |suffix|..] == suffix;
  }

  /** The only '/' in a blob name after the date is the one before the id,
      when the id has none. */
  lemma SlashesInKey(r: Record)
    requires ValidDate(r.created) && NoSlash(r.id)
    ensures forall i :: 10 <= i < |ColdKey(r)| ==> (ColdKey(r)[i] == '/' <==> i == 10)
  {
    ColdKeyLayout(r);
    var key := ColdKey(r);
    forall i | 11 <= i < |key| ensures key[i] != '/' {
      if i < 11 + |r.id| {
        assert key[i] == key[11..11 + |r.id|][i - 11];
      } else {
        assert key[i] == key[11 + |r.id|..][i - 11 - |r.id|];
      }
    }
  }

  /** A blob name built for a slash-free id matches a slash-free `id` only
      when `id` is that id: the '/' that starts the suffix must be the one
      before the record's id. */
  lemma MatchedKeyNamesTheRecord(r: Record, id: string)
    requires ValidDate(r.created) && NoSlash(r.id) && NoSlash(id)
    requires Retriever.Matches(ColdKey(r), id)
    ensures r.id == id
  {
    ColdKeyLayout(r);
    SlashesInKey(r);
    var key := ColdKey(r);
    var suffix := "/" + id + ".json";
    var start := |key| - |suffix|;
    assert key[start..] == suffix;
    assert key[start] == '/' by { assert key[start..][0] == suffix[0]; }
    assert start <= 10 ==> start == 10 by {
      if start <= 10 {
        assert key[10] == key[start..][10 - start] == suffix[10 - start];
      }
    }
    assert start == 10;
    assert id == suffix[1..1 + |id|] == key[11..11 + |id|] == r.id;
  }

  /** For ids without '/', as route parameters are, the suffix test is
      exact: a blob name built for one record matches exactly that
      record's id. */
  lemma SuffixMatchIsExact(r: Record, id: string)
    requires ValidDate(r.created) && NoSlash(r.id) && NoSlash(id)
    ensures Retriever.Matches(ColdKey(r), id) <==> r.id == id
  {
    if Retriever.Matches(ColdKey(r), id) {
      MatchedKeyNamesTheRecord(r, id);
    }
    if r.id == id {
      ArchivedKeyIsMatched(r);
    }
  }

  /** A cold store in which every blob holds a record with a valid date and
      a slash-free id, under the name the archiver builds for it. */
  predicate WellFormedCold(cold: map<string, Record>) {
    forall k :: k in cold ==> ValidDate(cold[k].created) && NoSlash(cold[k].id) && k == ColdKey(cold[k])
  }

  /** The retrieval function seen from the API service: the reply it gives
      for each id on this container. */
  function RetrieverService(container: Retriever.BlobContainer, fault: Retriever.Fault): (service: string -> ApiService.ColdReply) {
    id => var resp := Retriever.Answer(Some(id), container, fault);
          ApiService.Reply(resp.status, resp.body)
  }

  /** A record archived under its own name, the only blob for its id, is
      what the retrieval function returns for that id, with status 200. */
  lemma ArchivedRecordIsRetrieved(container: Retriever.BlobContainer, r: Record)
    requires ValidDate(r.created) && NoSlash(r.id) && r.id != ""
    requires WellFormedCold(container.blobs)
    requires forall j :: 0 <= j < |container.listing| ==> container.listing[j] in container.blobs
    requires ColdKey(r) in container.listing
    requires ColdKey(r) in container.blobs && container.blobs[ColdKey(r)] == r
    requires forall k :: k in container.blobs && container.blobs[k].id == r.id ==> k == ColdKey(r)
    ensures Retriever.Answer(Some(r.id), container, Retriever.NoFault) == Response(OK, RecordJson(r))
  {
    var listing := container.listing;
    var s := Retriever.FirstMatch(listing, r.id, Retriever.NoFault, 0);
    var k :| 0 <= k < |listing| && listing[k] == ColdKey(r);
    ArchivedKeyIsMatched(r);
    assert Retriever.Matches(listing[k], r.id);
    assert s.Found?;
    var name := s.name;
    assert name in container.blobs;
    var stored := container.blobs[name];
    SuffixMatchIsExact(stored, r.id);
    assert name == ColdKey(r);
  }

  /** Read-after-migration: once the hot copy of an archived record is gone,
      `GET /records/<id>` answers 200 with the archived record, the same
      response a hot hit on that record gives. */
  lemma ReadAfterMigration(container: Retriever.BlobContainer, r: Record)
    requires ValidDate(r.created) && NoSlash(r.id) && r.id != ""
    requires WellFormedCold(container.blobs)
    requires forall j :: 0 <= j < |container.listing| ==> container.listing[j] in container.blobs
    requires ColdKey(r) in container.listing
    requires ColdKey(r) in container.blobs && container.blobs[ColdKey(r)] == r
    requires forall k :: k in container.blobs && container.blobs[k].id == r.id ==> k == ColdKey(r)
    ensures var service := RetrieverService(container, Retriever.NoFault);
      ApiService.GetRecord(r.id, ApiService.HotMiss, service).response == Response(OK, RecordJson(r)) &&
      ApiService.GetRecord(r.id, ApiService.HotMiss, service).response ==
        ApiService.GetRecord(r.id, ApiService.HotHit(r), service).response
  {
    ArchivedRecordIsRetrieved(container, r);
  }

  /** The archiver keeps the cold store well formed when the candidates'
      ids are slash-free. */
  lemma {:induction false} WritesKeepColdWellFormed(cold: map<string, Record>, candidates: seq<Record>, n: nat)
    requires n <= |candidates| && DatesValid(candidates, n)
    requires forall l :: 0 <= l < n ==> NoSlash(candidates[l].id)
    requires WellFormedCold(cold)
    ensures WellFormedCold(Writes(cold, candidates, n))
  {
    var cold1 := Writes(cold, candidates, n);
    forall k | k in cold1
      ensures ValidDate(cold1[k].created) && NoSlash(cold1[k].id) && k == ColdKey(cold1[k])
    {
      WritesComeFromCandidates(cold, candidates, n, k);
    }
  }

  /** If no blob held `r.id` before the run and every candidate with that id
      is `r`, then afterwards only the blob named for `r` holds that id, and
      it holds `r`. */
  lemma {:induction false} WritesKeepIdUnique(cold: map<string, Record>, candidates: seq<Record>, n: nat, r: Record)
    requires n <= |candidates| && DatesValid(candidates, n)
    requires ValidDate(r.created)
    requires forall k :: k in cold ==> cold[k].id != r.id
    requires forall l :: 0 <= l < n && candidates[l].id == r.id ==> candidates[l] == r
    ensures forall k :: k in Writes(cold, candidates, n) && Writes(cold, candidates, n)[k].id == r.id ==>
      k == ColdKey(r) && Writes(cold, candidates, n)[k] == r
  {
    var cold1 := Writes(cold, candidates, n);
    forall k | k in cold1 && cold1[k].id == r.id ensures k == ColdKey(r) && cold1[k] == r {
      WritesComeFromCandidates(cold, candidates, n, k);
    }
  }

  /** The whole path: a completed archiver run over candidates that include
      `r` leaves `r` (as it was before its `ttl` was set) in the blob named
      for it and `r` with `ttl = 1` in the hot store; after the hot copy
      expires, reading `r.id` through the API service on a listing of the
      cold store returns `r`. During the overlap the hot copy is served,
      and it carries the `ttl` the blob does not. */
  lemma ArchiveThenRead(hot: map<string, Record>, cold: map<string, Record>, candidates: seq<Record>,
                        r: Record, listing: seq<string>)
    requires StopIndex(candidates, NoFault, 0) == |candidates|
    requires r in candidates && r.id != ""
    requires forall l :: 0 <= l < |candidates| ==> NoSlash(candidates[l].id)
    requires forall l :: 0 <= l < |candidates| && candidates[l].id == r.id ==> candidates[l] == r
    requires WellFormedCold(cold)
    requires forall k :: k in cold ==> cold[k].id != r.id
    requires DatesValid(candidates, |candidates|)
    requires forall name :: name in listing <==> name in Writes(cold, candidates, |candidates|)
    ensures ValidDate(r.created)
    ensures var cold1 := Writes(cold, candidates, |candidates|);
      ColdKey(r) in cold1 && cold1[ColdKey(r)] == r
    ensures var hot1 := Upserts(hot, candidates, |candidates|);
      r.id in hot1 && hot1[r.id] == MarkForExpiry(r)
    ensures var service := RetrieverService(
        Retriever.BlobContainer(listing, Writes(cold, candidates, |candidates|)), Retriever.NoFault);
      ApiService.GetRecord(r.id, ApiService.HotMiss, service).response == Response(OK, RecordJson(r)) &&
      ApiService.GetRecord(r.id, ApiService.HotHit(MarkForExpiry(r)), service).response ==
        Response(OK, RecordJson(MarkForExpiry(r)))
    ensures var service := RetrieverService(
        Retriever.BlobContainer(listing, Writes(cold, candidates, |candidates|)), Retriever.NoFault);
      r.ttl != Some(1) ==>
        ApiService.GetRecord(r.id, ApiService.HotHit(MarkForExpiry(r)), service).response !=
        ApiService.GetRecord(r.id, ApiService.HotMiss, service).response
  {
    var n := |candidates|;
    var j :| 0 <= j < n && candidates[j] == r;
    var cold1 := Writes(cold, candidates, n);
    var key := ColdKey(r);
    WritesArchiveEachCandidate(cold, candidates, n, j);
    UpsertsMarkExactlyTheProcessed(hot, candidates, n, r.id);
    WritesKeepColdWellFormed(cold, candidates, n);
    WritesKeepIdUnique(cold, candidates, n, r);
    var stored := cold1[key];
    assert key == ColdKey(stored);
    ArchivedKeyIsMatched(r);
    MatchedKeyNamesTheRecord(stored, r.id);
    ArchivedRecordIsRetrieved(Retriever.BlobContainer(listing, cold1), r);
  }
}
