/** The functions the web templates may call: `seq`, `contains` and
    `slice`. A function that panics while a template runs makes the
    template's execution fail; that is None here. */
module TemplateFuncs {
  import opened Results

  /** `seq(start, end)`: the append loop over start..end inclusive. */
  method Seq(start: int, end: int) returns (r: seq<int>)
    ensures |r| == if start <= end then end - start + 1 else 0
    ensures forall i :: 0 <= i < |r| ==> r[i] == start + i
  {
    r := [];
    var i := start;
    while i <= end
      invariant start <= i <= end + 1 || (end < start && i == start)
      invariant |r| == i - start
      invariant forall k :: 0 <= k < |r| ==> r[k] == start + k
      decreases end - i
    {
      r := r + [i];
      i := i + 1;
    }
  }

  /** `contains(s, e)`: a linear search that returns at the first match. */
  method Contains(s: seq<string>, e: string) returns (found: bool)
    ensures found <==> e in s
  {
    for i := 0 to |s|
      invariant e !in s[..i]
    {
      if s[i] == e {
        return true;
      }
      assert s[..i + 1] == s[..i] + [s[i]];
    }
    assert s[..|s|] == s;
    return false;
  }

  function Clamp(start: int, end: int, n: nat): (int, int) {
    (if start < 0 then 0 else start, if end > n then n else end)
  }

  /** `slice(s, start, end)`: start raised to 0, end lowered to len(s),
      then `s[start:end]`, which panics unless start <= end. */
  function Slice(s: string, start: int, end: int): (r: Option<string>)
    ensures r.Some? <==> 0 <= end && start <= end && start <= |s|
    ensures r.Some? ==> |r.value| <= |s|
  {
    var (lo, hi) := Clamp(start, end, |s|);
    if lo <= hi then Some(s[lo..hi]) else None
  }

  /** Within bounds, `slice` is plain slicing. */
  lemma SliceInBounds(s: string, start: int, end: int)
    requires 0 <= start <= end <= |s|
    ensures Slice(s, start, end) == Some(s[start..end])
  {
  }

  /** The truncation `slice s 0 n` with n >= 0 yields the first min(n, len(s))
      bytes, so it never panics. */
  lemma SliceTruncates(s: string, n: int)
    requires 0 <= n
    ensures Slice(s, 0, n).Some?
    ensures Slice(s, 0, n).value == s[..if n < |s| then n else |s|]
  {
  }

  /** Out of bounds on either side, `slice` yields the bytes from the raised
      start up to the lowered end: min(end, len(s)) - max(start, 0) of them. */
  lemma SliceClampedLength(s: string, start: int, end: int)
    requires Slice(s, start, end).Some?
    ensures var lo := if start < 0 then 0 else start;
      var hi := if end > |s| then |s| else end;
      var r := Slice(s, start, end).value;
      && |r| == hi - lo
      && forall i :: 0 <= i < |r| ==> r[i] == s[lo + i]
  {
  }

  /** The clamped slice is a factor of s: what lies before, the slice, and
      what lies after give back s. */
  lemma SliceIsFactor(s: string, start: int, end: int)
    requires Slice(s, start, end).Some?
    ensures var lo := if start < 0 then 0 else start;
      var r := Slice(s, start, end).value;
      lo + |r| <= |s| && s[..lo] + r + s[lo + |r|..] == s
  {
    var lo := if start < 0 then 0 else start;
    var r := Slice(s, start, end).value;
    assert s[..lo] + s[lo..lo + |r|] + s[lo + |r|..] == s;
  }
}
