/**
 Assembly (`mergeFileParts`): every slot's payload is written to the output
 file in slot order, the payload lengths are added up, and the total is
 compared with the probed size. The file is written whether or not the check
 passes; creating the directory and the file, and the SHA-256 that is computed
 but never read, are outside the model.
 */
module Merge {
  import opened Common
  import opened Http
  import opened Planner

  /** The bytes written: the payloads in slot order. */
  function Concat(slots: seq<FilePart>): seq<byte>
  {
    if |slots| == 0 then [] else Concat(slots[..|slots| - 1]) + slots[|slots| - 1].data
  }

  /** `totalSize += len(s.Data)` over all slots. */
  function TotalLength(slots: seq<FilePart>): nat
  {
    if |slots| == 0 then 0 else TotalLength(slots[..|slots| - 1]) + |slots[|slots| - 1].data|
  }

  /** Where slot i's payload begins in the merged file. */
  function Offset(slots: seq<FilePart>, i: nat): nat
    requires i <= |slots|
  {
    TotalLength(slots[..i])
  }

  lemma {:induction false} ConcatLength(slots: seq<FilePart>)
    ensures |Concat(slots)| == TotalLength(slots)
  {
    if |slots| > 0 {
      ConcatLength(slots[..|slots| - 1]);
    }
  }

  /** A prefix of the slots writes a prefix of the file. */
  lemma {:induction false} ConcatPrefix(slots: seq<FilePart>, i: nat)
    requires i <= |slots|
    ensures Concat(slots[..i]) <= Concat(slots)
    decreases |slots| - i
  {
    if i < |slots| {
      var n := |slots|;
      ConcatPrefix(slots[..n - 1], i);
      assert slots[..n - 1][..i] == slots[..i];
    } else {
      assert slots[..i] == slots;
    }
  }

  /** Placement: slot i's payload occupies exactly [Offset(i), Offset(i) + len)
      of the merged file, so the slots appear in index order. */
  lemma Placement(slots: seq<FilePart>, i: nat)
    requires i < |slots|
    ensures Offset(slots, i) + |slots[i].data| <= |Concat(slots)|
    ensures Concat(slots)[Offset(slots, i)..Offset(slots, i) + |slots[i].data|] == slots[i].data
  {
    var pre := slots[..i + 1];
    assert pre[..i] == slots[..i];
    ConcatLength(slots[..i]);
    ConcatPrefix(slots, i + 1);
    assert Concat(pre) == Concat(slots[..i]) + slots[i].data;
  }

  /** Slots whose payload is empty contribute nothing to the file. */
  lemma {:induction false} EmptyTailAddsNothing(slots: seq<FilePart>, m: nat)
    requires m <= |slots|
    requires forall k :: m <= k < |slots| ==> slots[k].data == []
    ensures Concat(slots) == Concat(slots[..m])
    ensures TotalLength(slots) == TotalLength(slots[..m])
    decreases |slots| - m
  {
    if m < |slots| {
      var n := |slots|;
      EmptyTailAddsNothing(slots[..n - 1], m);
      assert slots[..n - 1][..m] == slots[..m];
    } else {
      assert slots[..m] == slots;
    }
  }

  /** Replacing one slot changes the total by the difference of the payload lengths. */
  lemma {:induction false} TotalLengthUpdate(slots: seq<FilePart>, k: nat, p: FilePart)
    requires k < |slots|
    ensures TotalLength(slots[k := p]) == TotalLength(slots) - |slots[k].data| + |p.data|
  {
    var n := |slots|;
    if k < n - 1 {
      assert slots[k := p][..n - 1] == slots[..n - 1][k := p];
      TotalLengthUpdate(slots[..n - 1], k, p);
    } else {
      assert slots[k := p][..n - 1] == slots[..n - 1];
    }
  }

  datatype MergeOutcome = MergeOutcome(file: seq<byte>, err: Option<Error>)

  function MergeFileParts(slots: seq<FilePart>, fileSize: int): (r: MergeOutcome)
    ensures |r.file| == TotalLength(slots)
    ensures forall i :: 0 <= i < |slots| ==>
              && Offset(slots, i) + |slots[i].data| <= |r.file|
              && r.file[Offset(slots, i)..Offset(slots, i) + |slots[i].data|] == slots[i].data
    ensures r.err.None? <==> |r.file| == fileSize
    ensures r.err.Some? ==> r.err == Some(Incomplete)
  {
    ConcatLength(slots);
    forall i | 0 <= i < |slots|
      ensures Offset(slots, i) + |slots[i].data| <= |Concat(slots)|
      ensures Concat(slots)[Offset(slots, i)..Offset(slots, i) + |slots[i].data|] == slots[i].data
    {
      Placement(slots, i);
    }
    var totalSize := TotalLength(slots);
    MergeOutcome(Concat(slots), if totalSize != fileSize then Some(Incomplete) else None)
  }
}
