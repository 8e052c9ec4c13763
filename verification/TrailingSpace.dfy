/** skip_trailing_space: eight bytes at a time, then one at a time. */
module TrailingSpace {
  import opened Bytes
  import opened ByteOrder

  const SPACE: byte := 0x20
  const EIGHT_SPACES: int := 0x2020_2020_2020_2020

  /** Where the string ends once its trailing spaces are dropped one by one. */
  function TrimmedEnd(s: bytes): (end: nat)
    ensures end <= |s|
  {
    if s != [] && s[|s| - 1] == SPACE then TrimmedEnd(s[..|s| - 1]) else |s|
  }

  /** The independent description: the unique end with only spaces behind it and no space before it. */
  lemma {:induction false} TrimmedEndIs(s: bytes, end: nat)
    requires end <= |s|
    ensures end == TrimmedEnd(s) <==>
            (forall k :: end <= k < |s| ==> s[k] == SPACE) && (end > 0 ==> s[end - 1] != SPACE)
  {
    if s != [] && s[|s| - 1] == SPACE {
      var n := |s| - 1;
      if end <= n {
        TrimmedEndIs(s[..n], end);
        assert forall k :: 0 <= k < n ==> s[..n][k] == s[k];
      } else {
        assert s[end - 1] == SPACE;
      }
    } else if end < |s| {
      assert s[|s| - 1] != SPACE;
    }
  }

  /** A word of eight spaces can be dropped whole. */
  lemma EightAtOnce(s: bytes)
    requires |s| >= 8 && Uint8korr(s[|s| - 8..]) == EIGHT_SPACES
    ensures TrimmedEnd(s) == TrimmedEnd(s[..|s| - 8])
  {
    var n := |s| - 8;
    OnlySpaces(s[n..]);
    var end := TrimmedEnd(s[..n]);
    TrimmedEndIs(s[..n], end);
    forall k | end <= k < |s|
      ensures s[k] == SPACE
    {
      if k < n {
        assert s[..n][k] == s[k];
      } else {
        assert s[n..][k - n] == s[k];
      }
    }
    assert end > 0 ==> s[..n][end - 1] == s[end - 1];
    TrimmedEndIs(s, end);
  }

  method SkipTrailingSpace(s: bytes) returns (end: nat)
    ensures end == TrimmedEnd(s)
  {
    end := |s|;
    assert s[..end] == s;
    while end >= 8
      invariant end <= |s| && TrimmedEnd(s[..end]) == TrimmedEnd(s)
    {
      assert s[..end][end - 8..] == s[end - 8..end];
      if Uint8korr(s[end - 8..end]) != EIGHT_SPACES {
        break;
      }
      EightAtOnce(s[..end]);
      assert s[..end][..end - 8] == s[..end - 8];
      end := end - 8;
    }
    while end > 0 && s[end - 1] == SPACE
      invariant end <= |s| && TrimmedEnd(s[..end]) == TrimmedEnd(s)
    {
      assert s[..end][..end - 1] == s[..end - 1];
      end := end - 1;
    }
  }
}
