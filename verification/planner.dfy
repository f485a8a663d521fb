/**
 Segment planning: the partition loop of `FileDownloader.Run`. Job 0 starts at
 byte 0, each later job starts one past the previous job's end, each non-final
 job ends `eachSize` bytes after its start (so it is `eachSize + 1` bytes wide),
 and the final job ends at `fileTotalSize - 1`, whatever its start.
 */
module Planner {
  import opened Common

  /** One entry of `jobs` / `doneFilePart`: an inclusive byte range [from, to] and its payload. */
  datatype FilePart = FilePart(index: int, from: int, to: int, data: seq<byte>)

  /** The payload length a part must have: `To - From + 1` (negative when From > To + 1). */
  function Width(p: FilePart): int
  {
    p.to - p.from + 1
  }

  /** Go's integer division, which truncates toward zero (the probed size may be negative). */
  function GoQuo(a: int, b: int): (q: int)
    requires b > 0
    ensures a >= 0 ==> 0 <= q * b <= a < q * b + b
    ensures a < 0 ==> q * b - b < a <= q * b <= 0
  {
    if a >= 0 then
      DivBounds(a, b);
      a / b
    else
      DivBounds(-a, b);
      -((-a) / b)
  }

  lemma DivBounds(m: nat, b: int)
    requires b > 0
    ensures 0 <= (m / b) * b <= m < (m / b) * b + b
  {
    var p := m / b;
    assert m == p * b + m % b;
  }

  /** Every job after the first starts one byte past the end of the one before it. */
  ghost predicate Contiguous(jobs: seq<FilePart>)
  {
    forall k :: 0 < k < |jobs| ==> jobs[k].from == jobs[k - 1].to + 1
  }

  /** The jobs with indices i .. parts-1, the first of them starting at `from`. */
  function PlanFrom(size: int, parts: nat, each: int, i: nat, from: int): (jobs: seq<FilePart>)
    requires i <= parts
    ensures |jobs| == parts - i
    decreases parts - i
  {
    if i == parts then []
    else
      var to := if i < parts - 1 then from + each else size - 1;
      [FilePart(i, from, to, [])] + PlanFrom(size, parts, each, i + 1, to + 1)
  }

  /** Indices count up from i, data is empty, and the first job starts at `from`. */
  lemma {:induction false} PlanFromIndices(size: int, parts: nat, each: int, i: nat, from: int)
    requires i <= parts
    ensures var jobs := PlanFrom(size, parts, each, i, from);
            (forall k :: 0 <= k < |jobs| ==> jobs[k].index == i + k && jobs[k].data == [])
            && (|jobs| > 0 ==> jobs[0].from == from)
    decreases parts - i
  {
    if i < parts {
      var to := if i < parts - 1 then from + each else size - 1;
      var rest := PlanFrom(size, parts, each, i + 1, to + 1);
      PlanFromIndices(size, parts, each, i + 1, to + 1);
      var jobs := PlanFrom(size, parts, each, i, from);
      assert jobs == [FilePart(i, from, to, [])] + rest;
      assert forall k :: 0 < k < |jobs| ==> jobs[k] == rest[k - 1];
    }
  }

  /** Each job starts one byte past the end of the one before it. */
  lemma {:induction false} PlanFromContiguous(size: int, parts: nat, each: int, i: nat, from: int)
    requires i <= parts
    ensures var jobs := PlanFrom(size, parts, each, i, from);
            Contiguous(jobs)
    decreases parts - i
  {
    if i < parts {
      var to := if i < parts - 1 then from + each else size - 1;
      var rest := PlanFrom(size, parts, each, i + 1, to + 1);
      PlanFromContiguous(size, parts, each, i + 1, to + 1);
      var jobs := PlanFrom(size, parts, each, i, from);
      assert jobs == [FilePart(i, from, to, [])] + rest;
      forall k | 1 < k < |jobs| ensures jobs[k].from == jobs[k - 1].to + 1 {
        assert jobs[k] == rest[k - 1] && jobs[k - 1] == rest[k - 2];
      }
      if |rest| > 0 {
        PlanFromIndices(size, parts, each, i + 1, to + 1);
        assert jobs[1] == rest[0];
      }
    }
  }

  /** Every non-final job is each+1 bytes wide. */
  lemma {:induction false} PlanFromWidths(size: int, parts: nat, each: int, i: nat, from: int)
    requires i <= parts
    ensures var jobs := PlanFrom(size, parts, each, i, from);
            (forall k :: 0 <= k < |jobs| && i + k < parts - 1 ==> Width(jobs[k]) == each + 1)
    decreases parts - i
  {
    if i < parts {
      var to := if i < parts - 1 then from + each else size - 1;
      var rest := PlanFrom(size, parts, each, i + 1, to + 1);
      PlanFromWidths(size, parts, each, i + 1, to + 1);
      var jobs := PlanFrom(size, parts, each, i, from);
      assert jobs == [FilePart(i, from, to, [])] + rest;
      forall k | 0 < k < |jobs| && i + k < parts - 1 ensures Width(jobs[k]) == each + 1 {
        assert jobs[k] == rest[k - 1];
        assert Width(PlanFrom(size, parts, each, i + 1, to + 1)[k - 1]) == each + 1;
      }
    }
  }

  /** The final job ends at size-1. */
  lemma {:induction false} PlanFromLast(size: int, parts: nat, each: int, i: nat, from: int)
    requires i <= parts
    ensures var jobs := PlanFrom(size, parts, each, i, from);
            (|jobs| > 0 ==> jobs[|jobs| - 1].to == size - 1)
    decreases parts - i
  {
    if i < parts {
      var to := if i < parts - 1 then from + each else size - 1;
      var rest := PlanFrom(size, parts, each, i + 1, to + 1);
      PlanFromLast(size, parts, each, i + 1, to + 1);
      var jobs := PlanFrom(size, parts, each, i, from);
      assert jobs == [FilePart(i, from, to, [])] + rest;
      if |rest| > 0 {
        assert jobs[|jobs| - 1] == rest[|rest| - 1];
      }
    }
  }

  /** `eachSize := fileTotalSize / totalPart` and the jobs loop. */
  function Plan(size: int, parts: nat): (jobs: seq<FilePart>)
    requires parts >= 1
    ensures |jobs| == parts
    ensures forall k :: 0 <= k < parts ==> jobs[k].index == k && jobs[k].data == []
    ensures jobs[0].from == 0
    ensures Contiguous(jobs)
    ensures forall k :: 0 <= k < parts - 1 ==> Width(jobs[k]) == GoQuo(size, parts) + 1
    ensures jobs[parts - 1].to == size - 1
  {
    var each := GoQuo(size, parts);
    PlanFromIndices(size, parts, each, 0, 0);
    PlanFromContiguous(size, parts, each, 0, 0);
    PlanFromWidths(size, parts, each, 0, 0);
    PlanFromLast(size, parts, each, 0, 0);
    PlanFrom(size, parts, GoQuo(size, parts), 0, 0)
  }

  /** Sum of the part widths, in order. */
  function SumWidths(jobs: seq<FilePart>): int
  {
    if |jobs| == 0 then 0 else SumWidths(jobs[..|jobs| - 1]) + Width(jobs[|jobs| - 1])
  }

  /** Telescoping: the widths of a contiguous prefix add up to the distance
      from the first start to the start of the next part. */
  lemma {:induction false} PrefixWidthsTelescope(jobs: seq<FilePart>, i: nat)
    requires Contiguous(jobs)
    requires 0 < i < |jobs|
    ensures SumWidths(jobs[..i]) == jobs[i].from - jobs[0].from
  {
    if i > 1 {
      PrefixWidthsTelescope(jobs, i - 1);
      assert jobs[..i][..i - 1] == jobs[..i - 1];
    }
  }

  /** Telescoping over a whole contiguous plan. */
  lemma WidthsTelescope(jobs: seq<FilePart>)
    requires Contiguous(jobs)
    requires |jobs| > 0
    ensures SumWidths(jobs) == jobs[|jobs| - 1].to + 1 - jobs[0].from
  {
    var n := |jobs|;
    if n > 1 {
      PrefixWidthsTelescope(jobs, n - 1);
      assert jobs[..n][..n - 1] == jobs[..n - 1];
    }
    assert jobs[..n] == jobs;
  }

  /** Coverage: the planned widths always add up to the probed size. */
  lemma PlanCoversSize(size: int, parts: nat)
    requires parts >= 1
    ensures SumWidths(Plan(size, parts)) == size
  {
    WidthsTelescope(Plan(size, parts));
  }

  /** Closed form of the starts: job k starts at k * (eachSize + 1). */
  lemma {:induction false} PlanStarts(size: int, parts: nat, k: nat)
    requires parts >= 1
    requires k < parts
    ensures Plan(size, parts)[k].from == k * (GoQuo(size, parts) + 1)
  {
    if k > 0 {
      PlanStarts(size, parts, k - 1);
      var jobs := Plan(size, parts);
      var e := GoQuo(size, parts);
      assert jobs[k].from == jobs[k - 1].from + (e + 1);
      MulStep(k, e + 1);
    }
  }

  lemma MulStep(k: int, w: int)
    ensures (k - 1) * w + w == k * w
  {
  }

  /** The final job is the remainder: it has a non-negative width exactly when
      the other jobs fit into the size, and otherwise starts after its end. */
  lemma PlanLastWidth(size: int, parts: nat)
    requires parts >= 1
    ensures var last := Plan(size, parts)[parts - 1];
            && Width(last) == size - (parts - 1) * (GoQuo(size, parts) + 1)
            && (Width(last) >= 0 <==> (parts - 1) * (GoQuo(size, parts) + 1) <= size)
            && (last.from > last.to <==> (parts - 1) * (GoQuo(size, parts) + 1) >= size)
  {
    PlanStarts(size, parts, parts - 1);
  }

  /** The probe without range support leaves size 0 and one part: the plan is [0, -1]. */
  lemma PlanFallback()
    ensures Plan(0, 1) == [FilePart(0, 0, -1, [])]
  {
  }

  /** 1000 bytes in 4 parts: each non-final part is 251 bytes wide. */
  lemma PlanThousandInFour()
    ensures Plan(1000, 4) == [FilePart(0, 0, 250, []), FilePart(1, 251, 501, []),
                              FilePart(2, 502, 752, []), FilePart(3, 753, 999, [])]
  {
    var jobs := Plan(1000, 4);
    assert GoQuo(1000, 4) == 250;
    assert jobs[0] == FilePart(0, 0, 250, []);
    assert jobs[1] == FilePart(1, 251, 501, []);
    assert jobs[2] == FilePart(2, 502, 752, []);
  }

  /** Fewer bytes than parts: every non-final part is one byte wide and the final
      part is [parts - 1, size - 1], which starts past its end (5 bytes in 10
      parts end with [9, 4]). */
  lemma PlanSmallSizeInvertsLast(size: int, parts: nat)
    requires 0 <= size < parts
    ensures var last := Plan(size, parts)[parts - 1];
            last.from == parts - 1 && last.to == size - 1 && last.from > last.to
  {
    assert GoQuo(size, parts) == 0;
    PlanStarts(size, parts, parts - 1);
  }
}
