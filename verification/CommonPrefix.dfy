/** The longest common prefix of some strings, found by shrinking a byte length. */
module CommonPrefix {
  import opened Options
  import opened Utf8

  /** `string.chars().zip(first.chars()).take_while(equal).map(len_utf8).sum()` */
  function CommonByteLen(s: string, first: string): nat {
    if s != "" && first != "" && s[0] == first[0] then LenUtf8(s[0]) + CommonByteLen(s[1..], first[1..]) else 0
  }

  /** The number of leading characters two strings share. */
  function CommonChars(s: string, first: string): (k: nat)
    ensures k <= |s| && k <= |first| && s[..k] == first[..k]
    ensures k < |s| && k < |first| ==> s[k] != first[k]
  {
    if s != "" && first != "" && s[0] == first[0] then
      var k := CommonChars(s[1..], first[1..]);
      assert s[..k + 1] == [s[0]] + s[1..][..k] && first[..k + 1] == [first[0]] + first[1..][..k];
      k + 1
    else 0
  }

  lemma {:induction false} CommonByteLenIsOffset(s: string, first: string)
    ensures CommonByteLen(s, first) == Offset(first, CommonChars(s, first))
  {
    if s != "" && first != "" && s[0] == first[0] {
      CommonByteLenIsOffset(s[1..], first[1..]);
    }
  }

  predicate IsCommonPrefix(p: string, strings: seq<string>) {
    forall i :: 0 <= i < |strings| ==> p <= strings[i]
  }

  /** `k` characters of `first` are the longest common prefix of `first` and the given strings. */
  ghost predicate IsLongest(first: string, k: nat, strings: seq<string>) {
    && k <= |first| && IsCommonPrefix(first[..k], strings)
    && forall p :: p <= first && IsCommonPrefix(p, strings) ==> |p| <= k
  }

  lemma {:induction false} CommonPrefixIsShort(p: string, s: string, first: string)
    requires p <= s && p <= first
    ensures |p| <= CommonChars(s, first)
  {
    if p != "" {
      CommonPrefixIsShort(p[1..], s[1..], first[1..]);
    }
  }

  lemma OneMoreString(first: string, k: nat, strings: seq<string>, s: string, next: nat)
    requires IsLongest(first, k, strings)
    requires var m := CommonChars(s, first); next == if m < k then m else k
    ensures IsLongest(first, next, strings + [s])
  {
    var m := CommonChars(s, first);
    assert first[..next] <= first[..k] && first[..next] <= first[..m] == s[..m];
    forall i | 0 <= i < |strings| ensures first[..next] <= strings[i] {
      assert first[..k] <= strings[i];
    }
    forall p | p <= first && IsCommonPrefix(p, strings + [s]) ensures |p| <= next {
      assert (strings + [s])[|strings|] == s && p <= s;
      assert forall i :: 0 <= i < |strings| ==> strings[i] == (strings + [s])[i];
      CommonPrefixIsShort(p, s, first);
    }
  }

  lemma NextString(first: string, k: nat, strings: seq<string>, i: nat, next: nat)
    requires i < |strings| && IsLongest(first, k, strings[..i])
    requires var m := CommonChars(strings[i], first); next == if m < k then m else k
    ensures IsLongest(first, next, strings[..i + 1])
  {
    OneMoreString(first, k, strings[..i], strings[i], next);
    assert strings[..i] + [strings[i]] == strings[..i + 1];
  }

  /** The smaller byte length belongs to the smaller number of characters. */
  lemma SmallerOffset(first: string, j: nat, k: nat)
    requires j <= |first| && k <= |first|
    ensures Offset(first, if j < k then j else k) ==
            if Offset(first, j) < Offset(first, k) then Offset(first, j) else Offset(first, k)
  {
    if j < k {
      OffsetMonotone(first, j, k);
    } else if k < j {
      OffsetMonotone(first, k, j);
    }
  }

  /** The answer the documentation asks for: a non-empty prefix of every input that every common prefix is a prefix of,
      or nothing when there is no input or no non-empty common prefix. */
  ghost predicate IsAnswer(strings: seq<string>, r: Option<string>) {
    match r
    case Some(p) =>
      strings != [] && p != "" && IsCommonPrefix(p, strings) && forall q :: IsCommonPrefix(q, strings) ==> q <= p
    case None => strings != [] ==> forall q :: IsCommonPrefix(q, strings) ==> q == ""
  }

  lemma LongestIsAnswer(strings: seq<string>, k: nat)
    requires strings != [] && IsLongest(strings[0], k, strings)
    ensures IsAnswer(strings, if k == 0 then None else Some(strings[0][..k]))
  {
    forall q | IsCommonPrefix(q, strings) ensures q <= strings[0][..k] {
      assert q <= strings[0] && |q| <= k;
    }
  }

  method LongestCommonPrefix(strings: seq<string>) returns (r: Option<string>)
    ensures IsAnswer(strings, r)
  {
    if strings == [] {
      return None;
    }
    var first := strings[0];
    var len := ByteLen(first);
    ghost var k: nat := |first|;
    OffsetIsByteLen(first, k);
    assert first[..k] == first;
    for i := 1 to |strings|
      invariant IsLongest(first, k, strings[..i])
      invariant len == Offset(first, k)
    {
      var common := CommonByteLen(strings[i], first);
      CommonByteLenIsOffset(strings[i], first);
      ghost var m := CommonChars(strings[i], first);
      ghost var next: nat := if m < k then m else k;
      SmallerOffset(first, m, k);
      NextString(first, k, strings, i, next);
      len := if common < len then common else len;
      k := next;
    }
    assert strings[..|strings|] == strings;
    LongestIsAnswer(strings, k);
    OffsetInjectiveAtZero(first, k);
    if len == 0 {
      return None;
    }
    assert EndsAt(first, k, len);
    BoundaryIffWholeCharacters(first, len);
    r := Some(SliceTo(first, len));
    OffsetInjective(first, |r.value|, k);
  }

  lemma OffsetInjectiveAtZero(s: string, k: nat)
    requires k <= |s|
    ensures Offset(s, k) == 0 <==> k == 0
  {
  }
}
