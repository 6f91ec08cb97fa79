/** `rtrim`: strip trailing white space from a NUL-terminated buffer in place. */
module Trim {

  /** `isspace` in the C locale: space, and \t \n \v \f \r (codes 9 to 13). */
  predicate IsSpace(c: char)
    ensures IsSpace(c) <==> c in {' ', '\t', '\n', '\U{B}', '\U{C}', '\r'}
  {
    c == ' ' || 9 <= c as int <= 13
  }

  predicate EndsWithSpace(s: string)
  {
    |s| > 0 && IsSpace(s[|s| - 1])
  }

  /** The text `rtrim` leaves: the longest prefix of `s` that does not end
      in white space; everything removed is white space. */
  function TrimRight(s: string): (r: string)
    ensures r <= s
    ensures !EndsWithSpace(r)
    ensures forall i :: |r| <= i < |s| ==> IsSpace(s[i])
    decreases |s|
  {
    if EndsWithSpace(s) then TrimRight(s[..|s| - 1]) else s
  }

  /** Text without trailing white space is left as it is. */
  lemma TrimRightKeepsTrimmed(s: string)
    requires !EndsWithSpace(s)
    ensures TrimRight(s) == s
  {
  }

  /** Trimming twice is trimming once. */
  lemma TrimRightIdempotent(s: string)
    ensures TrimRight(TrimRight(s)) == TrimRight(s)
  {
    TrimRightKeepsTrimmed(TrimRight(s));
  }

  /** The three properties of `TrimRight` pin its result down. */
  lemma TrimRightUnique(s: string, r: string)
    requires r <= s && !EndsWithSpace(r)
    requires forall i :: |r| <= i < |s| ==> IsSpace(s[i])
    ensures r == TrimRight(s)
  {
  }

  /** `strlen`: the index of the first NUL. */
  function CLength(s: seq<char>): (n: nat)
    requires '\0' in s
    ensures n < |s| && s[n] == '\0'
    ensures '\0' !in s[..n]
  {
    if s[0] == '\0' then 0
    else
      assert s == [s[0]] + s[1..];
      assert s[..1 + CLength(s[1..])] == [s[0]] + s[1..][..CLength(s[1..])];
      1 + CLength(s[1..])
  }

  /** The first NUL is the only NUL a prefix without NUL can end at. */
  lemma CLengthAt(s: seq<char>, n: nat)
    requires n < |s| && s[n] == '\0' && '\0' !in s[..n]
    ensures CLength(s) == n
  {
  }

  /** The C string a NUL-terminated buffer holds. */
  function CString(s: seq<char>): string
    requires '\0' in s
  {
    s[..CLength(s)]
  }

  /** `rtrim(str)`: overwrites the trailing white space of the string in `buf`
      with NULs, so the buffer then holds the trimmed string; nothing else in
      the buffer changes. */
  method RTrim(buf: array<char>)
    requires '\0' in buf[..]
    modifies buf
    ensures '\0' in buf[..]
    ensures CString(buf[..]) == TrimRight(CString(old(buf[..])))
    ensures forall i :: 0 <= i < buf.Length ==>
              buf[i] == if |TrimRight(CString(old(buf[..])))| <= i < CLength(old(buf[..]))
                        then '\0' else old(buf[i])
  {
    ghost var s := buf[..];
    ghost var n := CLength(s);
    var len := CLength(buf[..]);
    while len > 0 && IsSpace(buf[len - 1])
      invariant 0 <= len <= n
      invariant TrimRight(s[..len]) == TrimRight(s[..n])
      invariant forall i :: 0 <= i < buf.Length ==> buf[i] == if len <= i < n then '\0' else s[i]
    {
      assert s[..len][..len - 1] == s[..len - 1];
      buf[len - 1] := '\0';
      len := len - 1;
    }
    assert buf[..len] == s[..len];
    assert buf[len] == '\0';
    assert s[..n][..len] == s[..len];
    assert '\0' !in buf[..len];
    CLengthAt(buf[..], len);
    assert TrimRight(s[..len]) == s[..len];
  }
}
