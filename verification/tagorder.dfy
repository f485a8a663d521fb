/**
 Release-tag ordering (`Tags` as a sort.Interface). A tag loses its leading
 "go", is split on '.', and each piece is read with strconv.Atoi, a piece Atoi
 rejects counting as 0. Tags are then compared number by number; when one
 tag's numbers are a prefix of the other's, the shorter tag comes first.
 */
module TagOrder {
  import opened GoText
  import opened Sorting

  /** `strToSlice`: the tag without one leading "go", split on '.'. */
  function StrToSlice(tag: string): (parts: seq<string>)
    ensures |parts| >= 1
    ensures forall i :: 0 <= i < |parts| ==> '.' !in parts[i]
    ensures Join(parts, '.') == TrimPrefix(tag, "go")
  {
    JoinSplit(TrimPrefix(tag, "go"), '.');
    Split(TrimPrefix(tag, "go"), '.')
  }

  /** The numbers `Less` compares: Atoi of each piece, 0 where Atoi fails. */
  function Components(tag: string): (vs: seq<int>)
    ensures |vs| == |StrToSlice(tag)|
  {
    Values(StrToSlice(tag))
  }

  /** Atoi of each piece, 0 where it fails. */
  function Values(parts: seq<string>): (vs: seq<int>)
    ensures |vs| == |parts|
  {
    if |parts| == 0 then [] else [AtoiOrZero(parts[0])] + Values(parts[1..])
  }

  /** Lexicographic order on number sequences, shorter prefix first. */
  predicate LexLess(a: seq<int>, b: seq<int>)
  {
    if |a| == 0 then |b| > 0
    else if |b| == 0 then false
    else if a[0] != b[0] then a[0] < b[0]
    else LexLess(a[1..], b[1..])
  }

  /** The tag order `Less` implements. */
  predicate Less(x: string, y: string)
  {
    LexLess(Components(x), Components(y))
  }

  /** a and b have the same first k numbers. */
  predicate AgreeUpTo(a: seq<int>, b: seq<int>, k: int)
  {
    0 <= k <= |a| && k <= |b| && a[..k] == b[..k]
  }

  /** Position k settles the comparison in favour of a: a ends there while b
      goes on, or both go on and a's number is smaller. */
  predicate DecidedAt(a: seq<int>, b: seq<int>, k: int)
  {
    0 <= k && ((k == |a| && k < |b|) || (k < |a| && k < |b| && a[k] < b[k]))
  }

  /** First-difference reading of the order: a is less than b exactly when, at the
      first position where they part, a has ended or holds the smaller number. */
  lemma {:induction false} LexLessFirstDifference(a: seq<int>, b: seq<int>)
    ensures LexLess(a, b) <==> exists k :: AgreeUpTo(a, b, k) && DecidedAt(a, b, k)
  {
    if |a| == 0 || |b| == 0 {
      if |a| == 0 && |b| > 0 {
        assert AgreeUpTo(a, b, 0) && DecidedAt(a, b, 0);
      }
    } else if a[0] != b[0] {
      if a[0] < b[0] {
        assert AgreeUpTo(a, b, 0) && DecidedAt(a, b, 0);
      }
      forall k | AgreeUpTo(a, b, k) && DecidedAt(a, b, k) ensures a[0] < b[0] {
        if k > 0 {
          assert a[..k][0] == b[..k][0];
        }
      }
    } else {
      LexLessFirstDifference(a[1..], b[1..]);
      if LexLess(a, b) {
        var k :| AgreeUpTo(a[1..], b[1..], k) && DecidedAt(a[1..], b[1..], k);
        assert a[..k + 1] == [a[0]] + a[1..][..k];
        assert b[..k + 1] == [b[0]] + b[1..][..k];
        assert AgreeUpTo(a, b, k + 1) && DecidedAt(a, b, k + 1);
      }
      forall k | AgreeUpTo(a, b, k) && DecidedAt(a, b, k) ensures LexLess(a, b) {
        assert k > 0;
        assert a[1..][..k - 1] == a[..k][1..];
        assert b[1..][..k - 1] == b[..k][1..];
        assert AgreeUpTo(a[1..], b[1..], k - 1) && DecidedAt(a[1..], b[1..], k - 1);
      }
    }
  }

  lemma {:induction false} ValuesAt(parts: seq<string>, k: nat)
    requires k < |parts|
    ensures Values(parts)[k] == AtoiOrZero(parts[k])
  {
    if k > 0 {
      ValuesAt(parts[1..], k - 1);
    }
  }

  /** How position i settles, or passes on, the comparison of the suffixes from i. */
  lemma LexLessAt(a: seq<int>, b: seq<int>, i: nat)
    requires i <= |a| && i <= |b| && (i < |a| || i < |b|)
    ensures i == |a| ==> LexLess(a[i..], b[i..])
    ensures i < |a| && i == |b| ==> !LexLess(a[i..], b[i..])
    ensures i < |a| && i < |b| && a[i] < b[i] ==> LexLess(a[i..], b[i..])
    ensures i < |a| && i < |b| && a[i] > b[i] ==> !LexLess(a[i..], b[i..])
    ensures i < |a| && i < |b| && a[i] == b[i] ==>
              LexLess(a[i..], b[i..]) == LexLess(a[i + 1..], b[i + 1..])
  {
    if i < |a| && i < |b| {
      assert a[i..][1..] == a[i + 1..];
      assert b[i..][1..] == b[i + 1..];
    }
  }

  /** `Tags.Less(i, j)`: the loop of the source over the pieces of both tags. */
  method TagsLess(tags: seq<string>, i: int, j: int) returns (less: bool)
    requires 0 <= i < |tags| && 0 <= j < |tags|
    ensures less == Less(tags[i], tags[j])
  {
    var tagVi := StrToSlice(tags[i]);
    var tagVj := StrToSlice(tags[j]);
    ghost var a := Components(tags[i]);
    ghost var b := Components(tags[j]);
    var index := 0;
    while index < |tagVi| || index < |tagVj|
      invariant 0 <= index <= |tagVi| && index <= |tagVj|
      invariant LexLess(a, b) == LexLess(a[index..], b[index..])
      decreases |tagVi| + |tagVj| - 2 * index
    {
      LexLessAt(a, b, index);
      if index == |tagVi| {
        return true;
      }
      if index == |tagVj| {
        return false;
      }
      var v1 := AtoiOrZero(tagVi[index]);
      var v2 := AtoiOrZero(tagVj[index]);
      ValuesAt(tagVi, index);
      ValuesAt(tagVj, index);
      if v1 == v2 {
        index := index + 1;
      } else if v1 < v2 {
        return true;
      } else {
        return false;
      }
    }
    return false;
  }

  /** `Tags.Swap(i, j)`: exchanges positions i and j and nothing else. */
  function Swap(tags: seq<string>, i: int, j: int): (r: seq<string>)
    requires 0 <= i < |tags| && 0 <= j < |tags|
    ensures |r| == |tags| && r[i] == tags[j] && r[j] == tags[i]
    ensures forall k :: 0 <= k < |tags| && k != i && k != j ==> r[k] == tags[k]
    ensures multiset(r) == multiset(tags)
  {
    tags[i := tags[j]][j := tags[i]]
  }

  lemma {:induction false} LexIrreflexive(a: seq<int>)
    ensures !LexLess(a, a)
  {
    if |a| > 0 {
      LexIrreflexive(a[1..]);
    }
  }

  lemma {:induction false} LexAsymmetric(a: seq<int>, b: seq<int>)
    requires LexLess(a, b)
    ensures !LexLess(b, a)
  {
    if |a| > 0 && |b| > 0 && a[0] == b[0] {
      LexAsymmetric(a[1..], b[1..]);
    }
  }

  lemma {:induction false} LexTransitive(a: seq<int>, b: seq<int>, c: seq<int>)
    requires LexLess(a, b) && LexLess(b, c)
    ensures LexLess(a, c)
  {
    if |a| > 0 && a[0] == b[0] && b[0] == c[0] {
      LexTransitive(a[1..], b[1..], c[1..]);
    }
  }

  /** Shorter prefix first: a sequence is less than every proper extension of
      it, and no extension is less than it. */
  lemma {:induction false} LexPrefixFirst(a: seq<int>, ext: seq<int>)
    requires |ext| > 0
    ensures LexLess(a, a + ext) && !LexLess(a + ext, a)
  {
    if |a| > 0 {
      assert (a + ext)[1..] == a[1..] + ext;
      LexPrefixFirst(a[1..], ext);
    }
  }

  /** Two sequences neither of which is less than the other are equal. */
  lemma {:induction false} LexTrichotomy(a: seq<int>, b: seq<int>)
    ensures a == b || LexLess(a, b) || LexLess(b, a)
  {
    if |a| > 0 && |b| > 0 && a[0] == b[0] {
      LexTrichotomy(a[1..], b[1..]);
      if a[1..] == b[1..] {
        assert a == [a[0]] + a[1..] && b == [b[0]] + b[1..];
      }
    }
  }

  /** `Less` is a strict weak order, as sort.Sort requires: irreflexive,
      asymmetric, transitive, and two tags are incomparable exactly when their
      numbers are the same (an equivalence). */
  lemma LessIsStrictWeakOrder(x: string, y: string, z: string)
    ensures !Less(x, x)
    ensures Less(x, y) ==> !Less(y, x)
    ensures Less(x, y) && Less(y, z) ==> Less(x, z)
    ensures (!Less(x, y) && !Less(y, x)) <==> Components(x) == Components(y)
  {
    LexIrreflexive(Components(x));
    if Less(x, y) {
      LexAsymmetric(Components(x), Components(y));
      if Less(y, z) {
        LexTransitive(Components(x), Components(y), Components(z));
      }
    }
    LexTrichotomy(Components(x), Components(y));
    if Components(x) == Components(y) {
      LexIrreflexive(Components(x));
    }
  }

  /** Trimming "go" from "go" + rest leaves rest. */
  lemma TrimGo(rest: string)
    ensures TrimPrefix("go" + rest, "go") == rest
  {
    assert ("go" + rest)[..2] == "go";
  }

  lemma {:induction false} ValuesSnoc(parts: seq<string>, p: string)
    ensures Values(parts + [p]) == Values(parts) + [AtoiOrZero(p)]
  {
    if |parts| > 0 {
      assert (parts + [p])[1..] == parts[1..] + [p];
      ValuesSnoc(parts[1..], p);
    }
  }

  /** Appending a piece to a tag appends its number. */
  lemma ComponentsExtend(t: string, p: string)
    requires HasPrefix(t, "go")
    requires '.' !in p
    ensures Components(t + "." + p) == Components(t) + [AtoiOrZero(p)]
  {
    var x := TrimPrefix(t, "go");
    assert t + "." + p == "go" + (x + "." + p);
    TrimGo(x + "." + p);
    SplitSnoc(x, p, '.');
    ValuesSnoc(Split(x, '.'), p);
  }

  /** Shorter prefix first: a tag sorts before the same tag with one more piece
      (go1.20 before go1.20.0), and never after it. */
  lemma LessShorterPrefixFirst(t: string, p: string)
    requires HasPrefix(t, "go")
    requires '.' !in p
    ensures Less(t, t + "." + p) && !Less(t + "." + p, t)
  {
    ComponentsExtend(t, p);
    LexPrefixFirst(Components(t), [AtoiOrZero(p)]);
  }

  /** Behind a common prefix, the last numbers decide. */
  lemma {:induction false} LexCommonPrefix(a: seq<int>, x: int, y: int)
    ensures LexLess(a + [x], a + [y]) <==> x < y
  {
    if |a| > 0 {
      assert (a + [x])[1..] == a[1..] + [x];
      assert (a + [y])[1..] == a[1..] + [y];
      LexCommonPrefix(a[1..], x, y);
    } else {
      assert a + [x] == [x] && [x][1..] == [];
      assert a + [y] == [y] && [y][1..] == [];
    }
  }

  /** Two tags that differ only in their last piece compare by that piece's number. */
  lemma LessLastPiece(t: string, p: string, q: string)
    requires HasPrefix(t, "go")
    requires '.' !in p && '.' !in q
    ensures Less(t + "." + p, t + "." + q) <==> AtoiOrZero(p) < AtoiOrZero(q)
  {
    ComponentsExtend(t, p);
    ComponentsExtend(t, q);
    LexCommonPrefix(Components(t), AtoiOrZero(p), AtoiOrZero(q));
  }

  lemma SmallNumbers()
    ensures AtoiOrZero("9") == 9 && AtoiOrZero("10") == 10
    ensures AtoiOrZero("0") == 0 && AtoiOrZero("x") == 0
  {
    assert "10"[..1] == "1";
  }

  /** Numbers, not text: go1.9 sorts before go1.10. */
  lemma LessComparesNumbers()
    ensures Less("go1.9", "go1.10") && !Less("go1.10", "go1.9")
  {
    assert "go1.9" == "go1" + "." + "9";
    assert "go1.10" == "go1" + "." + "10";
    LessLastPiece("go1", "9", "10");
    LessLastPiece("go1", "10", "9");
    SmallNumbers();
  }

  /** A piece Atoi rejects counts as 0: go1.x and go1.0 are equivalent. */
  lemma LessUnparsedIsZero()
    ensures !Less("go1.x", "go1.0") && !Less("go1.0", "go1.x")
  {
    assert "go1.x" == "go1" + "." + "x";
    assert "go1.0" == "go1" + "." + "0";
    LessLastPiece("go1", "x", "0");
    LessLastPiece("go1", "0", "x");
    SmallNumbers();
  }

  lemma LessAsymmetric(x: string, y: string)
    requires Less(x, y)
    ensures !Less(y, x)
  {
    LexAsymmetric(Components(x), Components(y));
  }

  lemma LessTransitive(x: string, y: string, z: string)
    requires Less(x, y) && Less(y, z)
    ensures Less(x, z)
  {
    LexTransitive(Components(x), Components(y), Components(z));
  }

  /** `Less` satisfies what sort.Sort asks of it. */
  lemma LessSortable()
    ensures Asymmetric(Less) && Transitive(Less)
  {
    forall x, y | Less(x, y) ensures !Less(y, x) {
      LessAsymmetric(x, y);
    }
    forall x, y, z | Less(x, y) && Less(y, z) ensures Less(x, z) {
      LessTransitive(x, y, z);
    }
  }

  /** `sort.Sort(tags)`: a permutation of the tags in which no tag is followed by
      one it is greater than, in particular no adjacent pair is out of order. */
  function SortTags(tags: seq<string>): (r: seq<string>)
    ensures multiset(r) == multiset(tags)
    ensures forall i, j :: 0 <= i < j < |r| ==> !Less(r[j], r[i])
    ensures forall i :: 0 <= i < |r| - 1 ==> !Less(r[i + 1], r[i])
  {
    LessSortable();
    SortBy(tags, Less)
  }
}
