/** Searching a buffer for the bytes of another: `arrayIndexOf`, forward, one byte per unit. */
module ArrayIndexOf {
  import opened Bytes

  /** The needle stands at position p. */
  predicate OccursAt(hay: seq<Byte>, needle: seq<Byte>, p: int) {
    0 <= p <= |hay| - |needle| && hay[p..p + |needle|] == needle
  }

  /** That is: the bytes before it are p in number, and any bytes may follow. */
  lemma OccursMeansSplit(hay: seq<Byte>, needle: seq<Byte>, p: int)
    ensures OccursAt(hay, needle, p) <==>
            exists a: seq<Byte>, b: seq<Byte> :: |a| == p && hay == a + needle + b
  {
    if OccursAt(hay, needle, p) {
      assert hay == hay[..p] + needle + hay[p + |needle|..];
    }
    forall a: seq<Byte>, b: seq<Byte> | |a| == p && hay == a + needle + b
      ensures OccursAt(hay, needle, p)
    {
      assert (a + needle + b)[p..p + |needle|] == needle;
    }
  }

  /** The least position from start on where the needle occurs. */
  predicate IsFirst(hay: seq<Byte>, needle: seq<Byte>, start: nat, p: int) {
    && start <= p && OccursAt(hay, needle, p)
    && forall q :: start <= q < p ==> !OccursAt(hay, needle, q)
  }

  /** Some of the needle matches at p, and the byte after it does not. */
  lemma Mismatch(hay: seq<Byte>, needle: seq<Byte>, p: nat, k: nat)
    requires k < |needle| && p + k < |hay| && hay[p + k] != needle[k]
    ensures !OccursAt(hay, needle, p)
  {
    if p + |needle| <= |hay| {
      assert hay[p..p + |needle|][k] == hay[p + k];
    }
  }

  /** One loop, which goes back to the byte after a false start. */
  method ForwardIndexOf(hay: seq<Byte>, needle: seq<Byte>, start: nat) returns (r: int)
    requires needle != []
    ensures r == -1 || IsFirst(hay, needle, start, r)
    ensures r == -1 ==> forall q :: start <= q ==> !OccursAt(hay, needle, q)
  {
    var foundIndex := -1;
    var i: int := start;
    while i < |hay|
      invariant start <= i
      invariant foundIndex == -1 || (start <= foundIndex < i && i - foundIndex < |needle| && i <= |hay|)
      invariant foundIndex >= 0 ==> hay[foundIndex..i] == needle[..i - foundIndex]
      invariant forall q :: start <= q < (if foundIndex == -1 then i else foundIndex) ==> !OccursAt(hay, needle, q)
      decreases |hay| - (if foundIndex == -1 then i else foundIndex), |hay| - i
    {
      var k := if foundIndex == -1 then 0 else i - foundIndex;
      if hay[i] == needle[k] {
        if foundIndex == -1 {
          foundIndex := i;
        }
        assert hay[foundIndex..i + 1] == hay[foundIndex..i] + [hay[i]];
        assert needle[..k + 1] == needle[..k] + [needle[k]];
        if i - foundIndex + 1 == |needle| {
          assert needle[..k + 1] == needle;
          return foundIndex;
        }
      } else {
        Mismatch(hay, needle, i - k, k);
        if foundIndex != -1 {
          i := i - (i - foundIndex);
        }
        foundIndex := -1;
      }
      i := i + 1;
    }
    r := -1;
  }

  /** The greatest position up to start where the needle occurs. */
  predicate IsLast(hay: seq<Byte>, needle: seq<Byte>, start: nat, p: int) {
    && p <= start && OccursAt(hay, needle, p)
    && forall q :: p < q <= start ==> !OccursAt(hay, needle, q)
  }

  method MatchesAt(hay: seq<Byte>, needle: seq<Byte>, p: nat) returns (found: bool)
    requires p + |needle| <= |hay|
    ensures found == OccursAt(hay, needle, p)
  {
    for k := 0 to |needle|
      invariant hay[p..p + k] == needle[..k]
    {
      if hay[p + k] != needle[k] {
        Mismatch(hay, needle, p, k);
        return false;
      }
      assert hay[p..p + k + 1] == hay[p..p + k] + [hay[p + k]];
      assert needle[..k + 1] == needle[..k] + [needle[k]];
    }
    assert needle[..|needle|] == needle;
    return true;
  }

  method BackwardIndexOf(hay: seq<Byte>, needle: seq<Byte>, start: nat) returns (r: int)
    ensures r == -1 || IsLast(hay, needle, start, r)
    ensures r == -1 ==> forall q :: q <= start ==> !OccursAt(hay, needle, q)
  {
    var i: int := if start + |needle| > |hay| then |hay| - |needle| else start;
    while i >= 0
      invariant i <= |hay| - |needle| && i <= start
      invariant forall q :: i < q <= start ==> !OccursAt(hay, needle, q)
    {
      var found := MatchesAt(hay, needle, i);
      if found {
        return i;
      }
      i := i - 1;
    }
    return -1;
  }

  /** `bidirectionalIndexOf`, for a buffer and a whole offset; a negative one counts from the end. An
      empty needle is nowhere. */
  method BidirectionalIndexOf(hay: seq<Byte>, needle: seq<Byte>, offset: int, forward: bool) returns (r: int)
    requires |hay| <= MAX_LENGTH
    ensures needle == [] ==> r == -1
    ensures needle != [] && forward ==>
      var s := if offset >= 0 then offset else if |hay| + offset >= 0 then |hay| + offset else 0;
      if r == -1 then forall q :: s <= q ==> !OccursAt(hay, needle, q) else IsFirst(hay, needle, s, r)
    ensures needle != [] && !forward ==>
      var s := if offset < 0 then |hay| + offset else offset;
      if r == -1 then forall q :: q <= s ==> !OccursAt(hay, needle, q) else s >= 0 && IsLast(hay, needle, s, r)
  {
    hide OccursAt;
    NowhereOutside(hay, needle);
    if |hay| == 0 {
      return -1;
    }
    var o := if offset > 0x7FFF_FFFF then 0x7FFF_FFFF else if offset < -0x8000_0000 then -0x8000_0000 else offset;
    var s := if o < 0 then |hay| + o else o;
    if s >= |hay| {
      if forward {
        return -1;
      }
      s := |hay| - 1;
    } else if s < 0 {
      if !forward {
        return -1;
      }
      s := 0;
    }
    if |needle| == 0 {
      return -1;
    }
    if forward {
      r := ForwardIndexOf(hay, needle, s);
    } else {
      r := BackwardIndexOf(hay, needle, s);
    }
  }

  lemma NowhereOutside(hay: seq<Byte>, needle: seq<Byte>)
    ensures needle != [] ==> forall q :: q < 0 || q >= |hay| ==> !OccursAt(hay, needle, q)
  {
  }
}
