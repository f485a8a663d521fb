/**
 Fetching segments (`downloadPart`) and the fan-out over all jobs in `Run`.
 Each job sends an inclusive `bytes=From-To` Range header (section 14.1.2 of
 RFC 9110); the server is a function from that header to its answer. A payload
 is stored in the job's slot only when the status is at most 299 and its
 length is exactly `To - From + 1`; any error leaves every slot untouched.
 */
module Segments {
  import opened Common
  import opened GoText
  import opened Http
  import opened Planner

  /** The server's answer to a ranged GET, by the value of the Range header. */
  type Server = string -> Exchange

  /** `fmt.Sprintf("bytes=%v-%v", c.From, c.To)`. */
  function RangeHeader(p: FilePart): string
  {
    "bytes=" + FormatInt(p.from) + "-" + FormatInt(p.to)
  }

  /** The two positions of a `first-last` range. The first position may carry
      a minus sign, so the separator is the first '-' after the first character. */
  function RangeBounds(spec: string): Option<(string, string)>
  {
    if |spec| == 0 || '-' !in spec[1..] then None
    else
      var i := 1 + IndexOf(spec[1..], '-');
      Some((spec[..i], spec[i + 1..]))
  }

  /** Reads a `bytes=first-last` header back. */
  function ParseRange(h: string): Option<(int, int)>
  {
    if !HasPrefix(h, "bytes=") then None
    else
      match RangeBounds(h[6..])
      case None => None
      case Some((first, last)) =>
        if Atoi(first).Some? && Atoi(last).Some? then Some((Atoi(first).value, Atoi(last).value))
        else None
  }

  /** `a-b` splits into a and b when a has no '-' past its first character. */
  lemma RangeBoundsSplit(a: string, b: string)
    requires |a| >= 1 && '-' !in a[1..]
    ensures RangeBounds(a + "-" + b) == Some((a, b))
  {
    var spec := a + "-" + b;
    assert spec[1..] == a[1..] + "-" + b;
    IndexOfAfterPiece(a[1..], '-', b);
    assert spec[..|a|] == a;
    assert spec[|a| + 1..] == b;
  }

  /** A header `bytes=` + a + `-` + b, where a has no '-' past its first
      character, is read back as the numbers in a and b. */
  lemma ParseRangeSplits(a: string, b: string)
    requires |a| >= 1 && '-' !in a[1..]
    requires Atoi(a).Some? && Atoi(b).Some?
    ensures ParseRange("bytes=" + (a + "-" + b)) == Some((Atoi(a).value, Atoi(b).value))
  {
    var h := "bytes=" + (a + "-" + b);
    assert h[..6] == "bytes=";
    assert h[6..] == a + "-" + b;
    RangeBoundsSplit(a, b);
  }

  /** The Range header names exactly the job's inclusive byte range. */
  lemma RangeHeaderDenotesRange(p: FilePart)
    ensures ParseRange(RangeHeader(p)) == Some((p.from, p.to))
  {
    var a := FormatInt(p.from);
    var b := FormatInt(p.to);
    assert RangeHeader(p) == "bytes=" + (a + "-" + b);
    assert '-' !in a[1..] by {
      assert forall k :: 0 <= k < |a[1..]| ==> IsDigit(a[1..][k]);
    }
    AtoiFormatInt(p.from);
    AtoiFormatInt(p.to);
    ParseRangeSplits(a, b);
  }

  /** The fallback job [0, -1] sends `bytes=0--1`. */
  lemma FallbackRangeHeader()
    ensures RangeHeader(FilePart(0, 0, -1, [])) == "bytes=0--1"
  {
  }

  /** The answer `downloadPart` keeps: a 2xx status, a readable body, and a
      payload of exactly the requested width. */
  predicate Accepts(p: FilePart, reply: Exchange)
  {
    && reply.Answered?
    && reply.response.status <= 299
    && reply.response.body.Some?
    && |reply.response.body.value| == Width(p)
  }

  /** The payload of an answer (empty when there is none to read). */
  function Payload(reply: Exchange): seq<byte>
  {
    if reply.Answered? && reply.response.body.Some? then reply.response.body.value else []
  }

  /** The slots after one `downloadPart`, and its error. */
  datatype PartOutcome = PartOutcome(slots: seq<FilePart>, err: Option<Error>)

  function DownloadPart(slots: seq<FilePart>, p: FilePart, serve: Server): (r: PartOutcome)
    requires 0 <= p.index < |slots|
    ensures |r.slots| == |slots|
    // success exactly when the answer is accepted
    ensures r.err.None? <==> Accepts(p, serve(RangeHeader(p)))
    // on success the job's own slot holds the job with the payload, of the requested width
    ensures r.err.None? ==>
              var reply := serve(RangeHeader(p));
              r.slots[p.index] == p.(data := Payload(reply)) && |Payload(reply)| == Width(p)
    // no other slot changes, and on error no slot changes at all
    ensures forall k :: 0 <= k < |slots| && k != p.index ==> r.slots[k] == slots[k]
    ensures r.err.Some? ==> r.slots == slots
    // a status above 299 is reported with its code
    ensures var reply := serve(RangeHeader(p));
            reply.Answered? && reply.response.status > 299 ==>
              r.err == Some(PartStatus(reply.response.status))
  {
    match serve(RangeHeader(p))
    case NoResponse => PartOutcome(slots, Some(RequestFailed))
    case Answered(resp) =>
      if resp.status > 299 then PartOutcome(slots, Some(PartStatus(resp.status)))
      else
        match resp.body
        case None => PartOutcome(slots, Some(BodyReadFailed))
        case Some(bs) =>
          if |bs| != p.to - p.from + 1 then PartOutcome(slots, Some(PartLengthMismatch))
          else PartOutcome(slots[p.index := p.(data := bs)], None)
  }

  /** Every job addresses a slot that exists. */
  ghost predicate IndicesInRange(jobs: seq<FilePart>, n: int)
  {
    forall j :: j in jobs ==> 0 <= j.index < n
  }

  /** No two jobs share a slot. */
  ghost predicate DistinctIndices(jobs: seq<FilePart>)
  {
    forall a, b :: 0 <= a < b < |jobs| ==> jobs[a].index != jobs[b].index
  }

  /** Without its first job, a list of jobs with distinct indices still has
      distinct indices, none of them the first job's, and every job is the first
      or in the rest. */
  lemma DistinctTail(jobs: seq<FilePart>)
    requires |jobs| > 0
    requires DistinctIndices(jobs)
    ensures DistinctIndices(jobs[1..])
    ensures forall j :: j in jobs[1..] ==> j.index != jobs[0].index
    ensures forall j :: j in jobs ==> j == jobs[0] || j in jobs[1..]
  {
    var tail := jobs[1..];
    forall a, b | 0 <= a < b < |tail| ensures tail[a].index != tail[b].index {
      assert tail[a] == jobs[a + 1] && tail[b] == jobs[b + 1];
    }
    forall j | j in tail ensures j.index != jobs[0].index {
      var b :| 0 <= b < |tail| && tail[b] == j;
      assert jobs[b + 1] == j;
    }
    assert jobs == [jobs[0]] + tail;
  }

  /** The slots after all jobs have run, and the errors they reported. */
  datatype FetchOutcome = FetchOutcome(slots: seq<FilePart>, errs: seq<Error>)

  /** One `downloadPart` per job, applied in the given order (the goroutines of
      `Run` finish in some order; see FetchOrderIrrelevant). */
  function FetchAll(slots: seq<FilePart>, jobs: seq<FilePart>, serve: Server): (r: FetchOutcome)
    requires IndicesInRange(jobs, |slots|)
    ensures |r.slots| == |slots|
    ensures |r.errs| <= |jobs|
    ensures r.errs == [] <==> forall j :: j in jobs ==> Accepts(j, serve(RangeHeader(j)))
    // a slot no job addresses keeps its value
    ensures forall k :: 0 <= k < |slots| && (forall j :: j in jobs ==> j.index != k) ==>
              r.slots[k] == slots[k]
    decreases |jobs|
  {
    if |jobs| == 0 then FetchOutcome(slots, [])
    else
      var step := DownloadPart(slots, jobs[0], serve);
      var rest := FetchAll(step.slots, jobs[1..], serve);
      match step.err
      case None => rest
      case Some(e) => FetchOutcome(rest.slots, [e] + rest.errs)
  }

  /** Some accepted job addresses slot k. */
  ghost predicate Written(jobs: seq<FilePart>, serve: Server, k: int)
  {
    exists j :: j in jobs && Accepts(j, serve(RangeHeader(j))) && j.index == k
  }

  /** What the fan-out leaves in each slot: the payload of the accepted job that
      addresses it, or its earlier value when no accepted job does. */
  lemma {:induction false} FetchAllSlots(slots: seq<FilePart>, jobs: seq<FilePart>, serve: Server)
    requires IndicesInRange(jobs, |slots|)
    requires DistinctIndices(jobs)
    ensures var r := FetchAll(slots, jobs, serve);
            && (forall j :: j in jobs && Accepts(j, serve(RangeHeader(j))) ==>
                  r.slots[j.index] == j.(data := Payload(serve(RangeHeader(j)))))
            && (forall k :: 0 <= k < |slots| && !Written(jobs, serve, k) ==> r.slots[k] == slots[k])
    decreases |jobs|
  {
    if |jobs| > 0 {
      var p := jobs[0];
      var tail := jobs[1..];
      var step := DownloadPart(slots, p, serve);
      FetchAllCons(slots, jobs, serve);
      DistinctTail(jobs);
      FetchAllSlots(step.slots, tail, serve);
      var r := FetchAll(slots, jobs, serve);
      assert !Written(tail, serve, p.index);
      forall j | j in jobs && Accepts(j, serve(RangeHeader(j)))
        ensures r.slots[j.index] == j.(data := Payload(serve(RangeHeader(j))))
      {
        if j != p {
          assert j in tail;
        }
      }
      forall k | 0 <= k < |slots| && !Written(jobs, serve, k) ensures r.slots[k] == slots[k] {
        WrittenByTail(jobs, serve, k);
      }
    }
  }

  /** Running a non-empty list of jobs is running the first, then the rest. */
  lemma FetchAllCons(slots: seq<FilePart>, jobs: seq<FilePart>, serve: Server)
    requires |jobs| > 0
    requires IndicesInRange(jobs, |slots|)
    ensures IndicesInRange(jobs[1..], |slots|)
    ensures var step := DownloadPart(slots, jobs[0], serve);
            FetchAll(slots, jobs, serve).slots == FetchAll(step.slots, jobs[1..], serve).slots
  {
    assert jobs[0] in jobs;
    assert forall j :: j in jobs[1..] ==> j in jobs;
  }

  /** A slot no accepted job writes is not written by the tail, and the first
      job leaves it alone. */
  lemma WrittenByTail(jobs: seq<FilePart>, serve: Server, k: int)
    requires |jobs| > 0
    requires !Written(jobs, serve, k)
    ensures !Written(jobs[1..], serve, k)
    ensures !Accepts(jobs[0], serve(RangeHeader(jobs[0]))) || jobs[0].index != k
  {
    assert jobs[0] in jobs;
    forall j | j in jobs[1..] && Accepts(j, serve(RangeHeader(j))) ensures j.index != k {
      assert j in jobs;
    }
  }

  /** Job lists with the same members write the same slots. */
  lemma WrittenBySameJobs(jobs: seq<FilePart>, reordered: seq<FilePart>, serve: Server, k: int)
    requires forall j :: j in reordered <==> j in jobs
    ensures Written(jobs, serve, k) <==> Written(reordered, serve, k)
  {
    if Written(jobs, serve, k) {
      var j :| j in jobs && Accepts(j, serve(RangeHeader(j))) && j.index == k;
      assert j in reordered;
    }
    if Written(reordered, serve, k) {
      var j :| j in reordered && Accepts(j, serve(RangeHeader(j))) && j.index == k;
      assert j in jobs;
    }
  }

  /** A value at two positions occurs at least twice. */
  lemma TwiceInMultiset<T>(a: seq<T>, p: nat, q: nat)
    requires p < q < |a| && a[p] == a[q]
    ensures multiset(a)[a[p]] >= 2
  {
    assert a == a[..q] + [a[q]] + a[q + 1..];
    assert a[..q][p] == a[p];
  }

  /** A value occurring at least twice occurs at a second position. */
  lemma OtherPosition<T>(b: seq<T>, i: nat) returns (j: nat)
    requires i < |b| && multiset(b)[b[i]] >= 2
    ensures j < |b| && j != i && b[j] == b[i]
  {
    var x := b[i];
    assert b == b[..i] + [x] + b[i + 1..];
    if x in b[..i] {
      var k :| 0 <= k < i && b[..i][k] == x;
      j := k;
    } else {
      assert x in multiset(b[i + 1..]);
      var k :| 0 <= k < |b| - i - 1 && b[i + 1..][k] == x;
      j := i + 1 + k;
    }
  }

  /** Two positions of a sequence are found at two different positions of any
      permutation of it. */
  lemma PermutedPositions<T>(a: seq<T>, b: seq<T>, p: nat, q: nat) returns (i: nat, j: nat)
    requires multiset(a) == multiset(b)
    requires p < q < |a|
    ensures i < |b| && j < |b| && i != j
    ensures b[i] == a[p] && b[j] == a[q]
  {
    var x, y := a[p], a[q];
    assert x in multiset(b) && y in multiset(b);
    i :| 0 <= i < |b| && b[i] == x;
    if x != y {
      j :| 0 <= j < |b| && b[j] == y;
    } else {
      TwiceInMultiset(a, p, q);
      j := OtherPosition(b, i);
    }
  }

  /** A permutation of jobs with distinct, in-range indices has them too. */
  lemma PermutedJobs(jobs: seq<FilePart>, reordered: seq<FilePart>, n: int)
    requires IndicesInRange(jobs, n) && DistinctIndices(jobs)
    requires multiset(reordered) == multiset(jobs)
    ensures forall j :: j in reordered <==> j in jobs
    ensures IndicesInRange(reordered, n) && DistinctIndices(reordered)
  {
    forall j ensures j in reordered <==> j in jobs {
      assert j in reordered <==> j in multiset(reordered);
      assert j in jobs <==> j in multiset(jobs);
    }
    forall p, q | 0 <= p < q < |reordered| ensures reordered[p].index != reordered[q].index {
      var i, j := PermutedPositions(reordered, jobs, p, q);
      if i < j {
        assert jobs[i].index != jobs[j].index;
      } else {
        assert jobs[j].index != jobs[i].index;
      }
    }
  }

  /** Completion order does not matter: any permutation of the jobs leaves the
      same slots, because every job writes only its own slot. */
  lemma FetchOrderIrrelevant(slots: seq<FilePart>, jobs: seq<FilePart>, reordered: seq<FilePart>, serve: Server)
    requires IndicesInRange(jobs, |slots|) && DistinctIndices(jobs)
    requires multiset(reordered) == multiset(jobs)
    ensures IndicesInRange(reordered, |slots|) && DistinctIndices(reordered)
    ensures FetchAll(slots, reordered, serve).slots == FetchAll(slots, jobs, serve).slots
  {
    PermutedJobs(jobs, reordered, |slots|);
    FetchAllSlots(slots, jobs, serve);
    FetchAllSlots(slots, reordered, serve);
    var r1 := FetchAll(slots, jobs, serve).slots;
    var r2 := FetchAll(slots, reordered, serve).slots;
    forall k | 0 <= k < |slots| ensures r1[k] == r2[k] {
      WrittenBySameJobs(jobs, reordered, serve, k);
      if Written(jobs, serve, k) {
        var j :| j in jobs && Accepts(j, serve(RangeHeader(j))) && j.index == k;
        assert j in reordered;
      }
    }
  }
}
