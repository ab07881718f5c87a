/** NUL-terminated character buffers and the two string routines of
    server/common.c: `rstrip` and the BSD `strlcpy`. A C string is modelled
    as the whole buffer it lives in (`array<char>`); its contents are the
    characters before the first NUL. */
module CString {

  function Min(a: int, b: int): int { if a < b then a else b }

  /** The whitespace class of `is_space`: space, tab, CR and LF. */
  predicate IsSpace(c: char) {
    c == ' ' || c == '\t' || c == '\r' || c == '\n'
  }

  /** `strlen`: the index of the first NUL in the buffer. */
  function StrLen(b: seq<char>): (n: nat)
    requires '\0' in b
    ensures n < |b| && b[n] == '\0'
    ensures '\0' !in b[..n]
  {
    if b[0] == '\0' then 0 else
      assert '\0' in b[1..] by { var k :| 0 <= k < |b| && b[k] == '\0'; assert b[1..][k - 1] == '\0'; }
      assert b[1..][..StrLen(b[1..])] == b[1..1 + StrLen(b[1..])];
      1 + StrLen(b[1..])
  }

  /** A NUL with no NUL before it is the terminator `strlen` finds. */
  lemma StrLenAt(b: seq<char>, p: nat)
    requires p < |b| && b[p] == '\0' && '\0' !in b[..p]
    ensures StrLen(b) == p
  {
  }

  /** The C string held by a buffer: everything before its first NUL. */
  function Contents(b: seq<char>): (s: seq<char>)
    requires '\0' in b
    ensures '\0' !in s && s + ['\0'] <= b
  {
    b[..StrLen(b)]
  }

  /** `s` with its maximal trailing run of whitespace removed. */
  function TrimRight(s: seq<char>): (r: seq<char>)
    ensures r <= s
    ensures forall k :: |r| <= k < |s| ==> IsSpace(s[k])
    ensures r == [] || !IsSpace(r[|r| - 1])
  {
    if s == [] || !IsSpace(s[|s| - 1]) then s
    else
      var r := TrimRight(s[..|s| - 1]);
      assert r <= s[..|s| - 1] <= s;
      r
  }

  /** Trimming a string that has no trailing whitespace changes nothing,
      so trimming twice is trimming once. */
  lemma {:induction false} TrimRightIdempotent(s: seq<char>)
    ensures TrimRight(TrimRight(s)) == TrimRight(s)
  {
    var r := TrimRight(s);
    assert r == [] || !IsSpace(r[|r| - 1]);
  }

  /** The maximal trailing whitespace run is determined: any split of `s`
      into a part that does not end in whitespace and a tail of whitespace
      is the one TrimRight makes. */
  lemma {:induction false} TrimRightUnique(s: seq<char>, n: nat)
    requires n <= |s|
    requires n == 0 || !IsSpace(s[n - 1])
    requires forall k :: n <= k < |s| ==> IsSpace(s[k])
    ensures TrimRight(s) == s[..n]
  {
  }

  /** The buffer `rstrip` leaves: a NUL written just after the last
      character that is not whitespace, every other byte as before. */
  function RStripped(b: seq<char>): (r: seq<char>)
    requires '\0' in b
    ensures |r| == |b| && '\0' in r
    ensures Contents(r) == TrimRight(Contents(b))
    ensures forall k :: 0 <= k < |b| && k != |TrimRight(Contents(b))| ==> r[k] == b[k]
  {
    var p := |TrimRight(Contents(b))|;
    var r := b[p := '\0'];
    assert r[..p] == Contents(b)[..p];
    StrLenAt(r, p);
    r
  }

  /** `rstrip` is idempotent: a buffer it has stripped has no trailing
      whitespace left, so a second call changes nothing. */
  lemma RStripIdempotent(b: seq<char>)
    requires '\0' in b
    ensures RStripped(RStripped(b)) == RStripped(b)
  {
    var r := RStripped(b);
    TrimRightIdempotent(Contents(b));
    var p := |TrimRight(Contents(b))|;
    assert |TrimRight(Contents(r))| == p;
    assert r[p] == '\0';
  }

  /** `rstrip(s)`: walk back from the terminating NUL over whitespace and
      write a NUL at the first trailing whitespace character. */
  method RStrip(s: array<char>)
    requires '\0' in s[..]
    modifies s
    ensures s[..] == RStripped(old(s[..]))
  {
    ghost var c := Contents(s[..]);
    var pos := StrLen(s[..]);
    assert c[..pos] == c;
    while pos > 0 && IsSpace(s[pos - 1])
      invariant 0 <= pos <= |c|
      invariant TrimRight(c[..pos]) == TrimRight(c)
    {
      assert c[..pos][..pos - 1] == c[..pos - 1];
      pos := pos - 1;
    }
    assert |TrimRight(c)| == pos;
    s[pos] := '\0';
  }

  /** The buffer `strlcpy(dest, src, size)` leaves in `dest`. With `size`
      zero nothing is written; otherwise `dest` receives the longest prefix
      of the source string that fits in `size - 1` characters, terminated
      by NUL, and no byte at or beyond `dest[size]` changes. */
  function StrlcpyBuffer(dest: seq<char>, src: seq<char>, size: nat): (r: seq<char>)
    requires '\0' in src && size <= |dest|
    ensures |r| == |dest|
    ensures size == 0 ==> r == dest
    ensures size > 0 ==> '\0' in r && StrLen(r) < size
    ensures size > 0 ==> Contents(r) <= Contents(src)
    ensures size > 0 ==> (Contents(r) == Contents(src) <==> StrLen(src) < size)
    ensures forall k :: size <= k < |dest| ==> r[k] == dest[k]
  {
    if size == 0 then dest
    else
      var m := Min(StrLen(src), size - 1);
      var r := src[..m] + ['\0'] + dest[m + 1..];
      assert r[..m] == Contents(src)[..m];
      StrLenAt(r, m);
      r
  }

  /** A buffer that agrees with the source string on its first `m`
      characters, has a NUL at `m` and the old bytes after it is the one
      `StrlcpyBuffer` describes. */
  lemma StrlcpyWritten(before: seq<char>, after: seq<char>, src: seq<char>, size: nat, m: nat)
    requires '\0' in src && 0 < size <= |before| == |after|
    requires m == Min(StrLen(src), size - 1)
    requires forall k :: 0 <= k < m ==> after[k] == src[k]
    requires after[m] == '\0'
    requires forall k :: m < k < |after| ==> after[k] == before[k]
    ensures after == StrlcpyBuffer(before, src, size)
  {
    var want := src[..m] + ['\0'] + before[m + 1..];
    assert StrlcpyBuffer(before, src, size) == want;
    forall k | 0 <= k < |after|
      ensures after[k] == want[k]
    {
      if k < m {
        assert want[k] == src[k];
      } else if k > m {
        assert want[k] == before[k];
      }
    }
  }

  /** `strlcpy`: copies at most `size - 1` characters and NUL-terminates
      when `size > 0`, and always returns the length of `src`, so a return
      value of `size` or more tells the caller the copy was truncated. */
  method Strlcpy(dest: array<char>, src: array<char>, size: nat) returns (n: nat)
    requires dest != src
    requires '\0' in src[..]
    requires size <= dest.Length
    modifies dest
    ensures n == StrLen(src[..])
    ensures dest[..] == StrlcpyBuffer(old(dest[..]), src[..], size)
  {
    if size == 0 {
      return StrLen(src[..]);
    }
    var i := 0;
    ghost var len := StrLen(src[..]);
    assert forall k :: 0 <= k < len ==> src[k] != '\0' by {
      forall k | 0 <= k < len ensures src[k] != '\0' {
        assert src[..len][k] == src[k];
      }
    }
    while i < size - 1 && src[i] != '\0'
      invariant 0 <= i <= size - 1 && i <= len
      invariant forall k :: 0 <= k < i ==> dest[k] == src[k]
      invariant forall k :: i <= k < dest.Length ==> dest[k] == old(dest[k])
    {
      dest[i] := src[i];
      i := i + 1;
    }
    assert i == Min(len, size - 1);
    dest[i] := '\0';
    StrlcpyWritten(old(dest[..]), dest[..], src[..], size, i);
    while src[i] != '\0'
      invariant i <= len
      decreases len - i
    {
      i := i + 1;
    }
    n := i;
  }
}
