/** strndup(s, n) of the test helpers: a freshly allocated, NUL-terminated
    copy of at most the first `n` characters of `s`, stopping at its first
    NUL. */
module StrNDup {

  const NUL: char := '\0'

  /** What strndup may read of `cs` for bound `n`: the first `n` characters,
      or up to a NUL that comes before them. */
  ghost predicate Readable(cs: seq<char>, n: nat) {
    n <= |cs| || exists j :: 0 <= j < |cs| && cs[j] == NUL
  }

  /** The length strndup copies: the position of the first NUL among the
      first `n` characters, or `n` when there is none. */
  function PrefixLen(cs: seq<char>, n: nat): (len: nat)
    requires Readable(cs, n)
    ensures len <= n && len <= |cs|
    ensures forall j :: 0 <= j < len ==> cs[j] != NUL
    ensures len < n ==> cs[len] == NUL
  {
    if n == 0 || cs[0] == NUL then 0
    else
      assert Readable(cs[1..], n - 1) by {
        if n > |cs| {
          var j :| 0 <= j < |cs| && cs[j] == NUL;
          assert cs[1..][j - 1] == NUL;
        }
      }
      1 + PrefixLen(cs[1..], n - 1)
  }

  /** The copy strndup returns: the prefix, then a terminating NUL. */
  function Dup(cs: seq<char>, n: nat): seq<char>
    requires Readable(cs, n)
  {
    cs[..PrefixLen(cs, n)] + [NUL]
  }

  /** The three facts PrefixLen promises pin it down. */
  lemma PrefixLenUnique(cs: seq<char>, n: nat, len: nat)
    requires Readable(cs, n) && len <= n && len <= |cs|
    requires forall j :: 0 <= j < len ==> cs[j] != NUL
    requires len < n ==> cs[len] == NUL
    ensures PrefixLen(cs, n) == len
  {
  }

  /** strndup of a copy, with a bound reaching the copy's NUL, gives the
      copy back: the copy is a proper NUL-terminated string of the length
      that was copied. */
  lemma DupIdempotent(cs: seq<char>, n: nat, m: nat)
    requires Readable(cs, n) && m > PrefixLen(cs, n)
    ensures Readable(Dup(cs, n), m)
    ensures PrefixLen(Dup(cs, n), m) == PrefixLen(cs, n)
    ensures Dup(Dup(cs, n), m) == Dup(cs, n)
  {
    var len := PrefixLen(cs, n);
    var d := Dup(cs, n);
    assert d[len] == NUL;
    PrefixLenUnique(d, m, len);
    assert d[..len] == cs[..len];
  }

  /** strndup(s, n): null for a null `s`; otherwise scan for the first NUL
      below `n`, allocate `len + 1` characters, terminate, and copy. */
  method Strndup(s: array?<char>, n: nat) returns (p: array?<char>)
    requires s != null ==> Readable(s[..], n)
    ensures s == null <==> p == null
    ensures s != null ==> fresh(p) && p[..] == Dup(s[..], n)
    ensures s != null ==> p.Length == PrefixLen(s[..], n) + 1 && p[p.Length - 1] == NUL &&
                          p[..p.Length - 1] == s[..p.Length - 1]
  {
    if s == null {
      return null;
    }
    var len := n;
    var i := 0;
    while i < n
      invariant 0 <= i <= n && len == n
      invariant forall j :: 0 <= j < i ==> j < s.Length && s[j] != NUL
      decreases n - i
    {
      ScanInBounds(s[..], n, i);
      if s[i] == NUL {
        len := i;
        break;
      }
      i := i + 1;
    }
    PrefixLenUnique(s[..], n, len);
    p := new char[len + 1];
    p[len] := NUL;
    var k := 0;
    while k < len
      invariant 0 <= k <= len && p[len] == NUL
      invariant forall j :: 0 <= j < k ==> p[j] == s[j]
      decreases len - k
    {
      p[k] := s[k];
      k := k + 1;
    }
    assert p[..] == s[..len] + [NUL];
  }

  /** The scan never reads past the string: with no NUL among the first
      `i < n` characters, character `i` is still readable. */
  lemma ScanInBounds(cs: seq<char>, n: nat, i: nat)
    requires Readable(cs, n) && i < n
    requires forall j :: 0 <= j < i ==> j < |cs| && cs[j] != NUL
    ensures i < |cs|
  {
    if n > |cs| {
      var j :| 0 <= j < |cs| && cs[j] == NUL;
      assert i <= j;
    }
  }
}
