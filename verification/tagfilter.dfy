/**
 Which remote references `gvm list` shows: tag references whose short name
 starts with "go1" and that the pattern `^go(.*)[a-zA-Z]` does not match,
 so release candidates and betas (go1.21rc1, go1.9beta2) are dropped.
 The kept names are then sorted with the tag order.
 */
module TagFilter {
  import opened GoText
  import opened Sorting
  import opened TagOrder

  predicate IsAsciiLetter(c: char) {
    'a' <= c <= 'z' || 'A' <= c <= 'Z'
  }

  /** What `^go(.*)[a-zA-Z]` matching somewhere means: the name starts with "go"
      and a letter follows it, with no newline in between (`.` stops at a
      newline). */
  predicate VersionRegMatches(s: string) {
    HasPrefix(s, "go") &&
    exists k :: 2 <= k < |s| && IsAsciiLetter(s[k]) && '\n' !in s[2..k]
  }

  /** A left-to-right scan deciding the same match. */
  method MatchVersionReg(s: string) returns (matched: bool)
    ensures matched == VersionRegMatches(s)
  {
    if !HasPrefix(s, "go") {
      return false;
    }
    var i := 2;
    while i < |s| && s[i] != '\n'
      invariant 2 <= i <= |s|
      invariant '\n' !in s[2..i]
      invariant forall k :: 2 <= k < i ==> !IsAsciiLetter(s[k])
    {
      if IsAsciiLetter(s[i]) {
        assert IsAsciiLetter(s[i]) && '\n' !in s[2..i];
        return true;
      }
      assert s[2..i + 1] == s[2..i] + [s[i]];
      i := i + 1;
    }
    // the scan stopped at the end or at a newline, which no later letter gets past
    if i < |s| {
      forall k | i < k < |s| ensures '\n' in s[2..k] {
        assert s[2..k][i - 2] == s[i];
      }
    }
    return false;
  }

  /** The name test applied to each tag. */
  predicate KeepTag(name: string) {
    HasPrefix(name, "go1") && !VersionRegMatches(name)
  }

  /** On a name without newlines a tag is kept exactly when it starts with "go1"
      and carries no ASCII letter after the "go". */
  lemma KeepTagMeaning(name: string)
    requires '\n' !in name
    ensures KeepTag(name) <==>
            HasPrefix(name, "go1") && forall k :: 2 <= k < |name| ==> !IsAsciiLetter(name[k])
  {
    if HasPrefix(name, "go1") {
      forall k | 2 <= k < |name| && IsAsciiLetter(name[k])
        ensures VersionRegMatches(name)
      {
        assert '\n' !in name[2..k];
      }
    }
  }

  /** A reference as the remote listing reports it. */
  datatype Ref = Ref(isTag: bool, shortName: string)

  /** The loop over the references: tags that pass the name test, in listing
      order. */
  function FilterTags(refs: seq<Ref>): (tags: seq<string>)
    ensures |tags| <= |refs|
    ensures forall i :: 0 <= i < |tags| ==> KeepTag(tags[i]) && Ref(true, tags[i]) in refs
  {
    if |refs| == 0 then [] else Kept(refs[0]) + FilterTags(refs[1..])
  }

  /** What one reference contributes: its short name when it is a tag that passes. */
  function Kept(ref: Ref): seq<string>
  {
    if ref.isTag && KeepTag(ref.shortName) then [ref.shortName] else []
  }

  /** Every kept tag reference appears, and nothing else does. */
  lemma {:induction false} FilterTagsMembership(refs: seq<Ref>, name: string)
    ensures name in FilterTags(refs) <==> KeepTag(name) && Ref(true, name) in refs
  {
    if |refs| > 0 {
      FilterTagsMembership(refs[1..], name);
      assert refs == [refs[0]] + refs[1..];
    }
  }

  /** The filter handles the listing piece by piece: filtering a concatenation
      concatenates the filtered pieces. */
  lemma {:induction false} FilterTagsAppend(a: seq<Ref>, b: seq<Ref>)
    ensures FilterTags(a + b) == FilterTags(a) + FilterTags(b)
  {
    if |a| > 0 {
      assert (a + b)[0] == a[0];
      assert (a + b)[1..] == a[1..] + b;
      FilterTagsAppend(a[1..], b);
      var head, x, y := Kept(a[0]), FilterTags(a[1..]), FilterTags(b);
      assert FilterTags(a + b) == head + (x + y);
      assert head + (x + y) == (head + x) + y;
    } else {
      assert a + b == b;
    }
  }

  /** The list the command prints: the kept tags, sorted by the tag order. */
  function ListRemoteTags(refs: seq<Ref>): (tags: seq<string>)
    ensures multiset(tags) == multiset(FilterTags(refs))
    ensures forall i, j :: 0 <= i < j < |tags| ==> !Less(tags[j], tags[i])
    ensures forall name :: name in tags <==> KeepTag(name) && Ref(true, name) in refs
  {
    var kept := FilterTags(refs);
    var tags := SortTags(kept);
    forall name ensures name in tags <==> KeepTag(name) && Ref(true, name) in refs {
      assert name in tags <==> name in multiset(tags);
      assert name in kept <==> name in multiset(kept);
      FilterTagsMembership(refs, name);
    }
    tags
  }

  lemma KeepsReleases()
    ensures KeepTag("go1.21.0")
  {
    KeepTagMeaning("go1.21.0");
  }

  lemma DropsPrereleases()
    ensures !KeepTag("go1.21rc1") && !KeepTag("go1.9beta2")
  {
    assert IsAsciiLetter("go1.21rc1"[6]) && '\n' !in "go1.21rc1"[2..6];
    assert IsAsciiLetter("go1.9beta2"[5]) && '\n' !in "go1.9beta2"[2..5];
  }

  lemma DropsOtherTags()
    ensures !KeepTag("weekly.2009-11-06") && !KeepTag("release.r60")
  {
    assert "weekly.2009-11-06"[0] != 'g';
    assert "release.r60"[0] != 'g';
  }
}
