/** The members of std::string that the frame parser relies on, over `seq<char>`:
    `find`, `find_first_of`, `rfind`, `substr`, and the unsigned `size_t`
    arithmetic used to compute a substring length. */
module StdString {

  /** `size_t` is 64 bits wide on the platforms the controller is built for. */
  const SIZE_RANGE: int := 0x1_0000_0000_0000_0000

  /** An integer expression evaluated in `size_t`: reduced modulo 2^64. */
  function SizeT(x: int): (r: nat)
    ensures r < SIZE_RANGE
    ensures 0 <= x < SIZE_RANGE ==> r == x
    ensures -SIZE_RANGE <= x < 0 ==> r == x + SIZE_RANGE
    ensures (x - r) % SIZE_RANGE == 0
  {
    x % SIZE_RANGE
  }

  /** The result of a search: a position, or `std::string::npos` when nothing is found. */
  datatype Pos = NPos | At(index: nat)

  /** `pat` occurs in `s` starting at position `k`. */
  predicate OccursAt(s: string, pat: string, k: nat)
  {
    k + |pat| <= |s| && s[k..k + |pat|] == pat
  }

  /** First occurrence of `pat` in `s` at a position no smaller than `from`. */
  function FindFrom(s: string, pat: string, from: nat): (r: Pos)
    requires from <= |s| + 1
    ensures r.At? ==> from <= r.index && OccursAt(s, pat, r.index)
    ensures r.At? ==> forall k: nat :: from <= k < r.index ==> !OccursAt(s, pat, k)
    ensures r.NPos? ==> forall k: nat :: from <= k ==> !OccursAt(s, pat, k)
    decreases |s| + 1 - from
  {
    if from + |pat| > |s| then NPos
    else if s[from..from + |pat|] == pat then At(from)
    else FindFrom(s, pat, from + 1)
  }

  /** `s.find(pat)`: the first position where `pat` occurs, npos when there is none. */
  function Find(s: string, pat: string): (r: Pos)
    ensures r.At? ==> OccursAt(s, pat, r.index) && forall k: nat :: k < r.index ==> !OccursAt(s, pat, k)
    ensures r.NPos? <==> forall k: nat :: !OccursAt(s, pat, k)
  {
    FindFrom(s, pat, 0)
  }

  /** First position at or after `from` whose character is one of `chars`. */
  function FindFirstOfFrom(s: string, chars: string, from: nat): (r: Pos)
    requires from <= |s|
    ensures r.At? ==> from <= r.index < |s| && s[r.index] in chars
    ensures r.At? ==> forall k: nat :: from <= k < r.index ==> s[k] !in chars
    ensures r.NPos? ==> forall k: nat :: from <= k < |s| ==> s[k] !in chars
    decreases |s| - from
  {
    if from == |s| then NPos
    else if s[from] in chars then At(from)
    else FindFirstOfFrom(s, chars, from + 1)
  }

  /** `s.find_first_of(chars)`: the first position holding any character of `chars`. */
  function FindFirstOf(s: string, chars: string): (r: Pos)
    ensures r.At? ==> r.index < |s| && s[r.index] in chars
    ensures r.At? ==> forall k: nat :: 0 <= k < r.index ==> s[k] !in chars
    ensures r.NPos? <==> forall k: nat :: 0 <= k < |s| ==> s[k] !in chars
  {
    FindFirstOfFrom(s, chars, 0)
  }

  /** Last occurrence of `pat` in `s` at a position strictly below `bound`. */
  function RFindBelow(s: string, pat: string, bound: nat): (r: Pos)
    ensures r.At? ==> r.index < bound && OccursAt(s, pat, r.index)
    ensures r.At? ==> forall k: nat :: r.index < k < bound ==> !OccursAt(s, pat, k)
    ensures r.NPos? ==> forall k: nat :: k < bound ==> !OccursAt(s, pat, k)
    decreases bound
  {
    if bound == 0 then NPos
    else if OccursAt(s, pat, bound - 1) then At(bound - 1)
    else RFindBelow(s, pat, bound - 1)
  }

  /** `s.rfind(pat)`: the last position where `pat` occurs, npos when there is none. */
  function RFind(s: string, pat: string): (r: Pos)
    ensures r.At? ==> OccursAt(s, pat, r.index) && forall k: nat :: r.index < k ==> !OccursAt(s, pat, k)
    ensures r.NPos? <==> forall k: nat :: !OccursAt(s, pat, k)
  {
    RFindBelow(s, pat, |s| + 1)
  }

  /** `s.substr(pos, count)`: at most `count` characters starting at `pos`; the
      count is clamped to what is left of the string. */
  function Substr(s: string, pos: nat, count: nat): (r: string)
    requires pos <= |s|
    ensures |r| == if count < |s| - pos then count else |s| - pos
    ensures forall k: nat :: 0 <= k < |r| ==> r[k] == s[pos + k]
  {
    if count < |s| - pos then s[pos..pos + count] else s[pos..]
  }
}
