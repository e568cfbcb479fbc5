/**
 Text in fixed buffers, as the links handle it: zero-terminated, measured and moved in place.
 */
module TextBuffer {
  import opened Djb2

  /** The buffer holds the terminated string s. */
  ghost predicate Holds(buf: array<char>, s: string)
    reads buf
  {
    |s| < buf.Length && buf[|s|] == '\0' && forall i :: 0 <= i < |s| ==> buf[i] == s[i] != '\0'
  }

  method StrLen(buf: array<char>, ghost s: string) returns (n: nat)
    requires Holds(buf, s)
    ensures n == |s|
  {
    n := 0;
    while buf[n] != '\0'
      invariant n <= |s|
      decreases |s| - n
    {
      n := n + 1;
    }
  }

  /** strcspn: the length of the part before the first comma. */
  method CommaSpan(buf: array<char>, ghost s: string) returns (n: nat)
    requires Holds(buf, s)
    ensures n <= |s| && (forall i :: 0 <= i < n ==> s[i] != ',') && (n < |s| ==> s[n] == ',')
  {
    n := 0;
    while buf[n] != '\0' && buf[n] != ','
      invariant n <= |s| && forall i :: 0 <= i < n ==> s[i] != ','
      decreases |s| - n
    {
      n := n + 1;
    }
  }

  /** The guard of the strip loop, in unsigned 64-bit arithmetic. */
  predicate StripGoesOn(i: nat, len: nat, offset: nat): (r: bool)
    ensures offset <= len < WORD ==> (r <==> i <= len - offset)
  {
    i <= (len - offset) % WORD
  }

  /** The string while its first i characters have been overwritten by those behind the prefix. */
  function Shifted(s: string, offset: nat, i: nat): (r: string)
    requires i + offset <= |s|
    ensures |r| == |s| && forall j :: 0 <= j < |s| ==> r[j] == if j < i then s[j + offset] else s[j]
  {
    s[offset..offset + i] + s[i..]
  }

  /** The loop at pass i: before the terminator moves, and after. */
  ghost function InPass(s: string, offset: nat, i: nat): string
    requires offset <= |s|
  {
    if i <= |s| - offset then Shifted(s, offset, i) else s[offset..]
  }

  /** One pass copies one character, or the terminator. */
  method CopyDown(buf: array<char>, offset: nat, i: nat, ghost s: string)
    requires 0 < offset <= |s| && i <= |s| - offset && Holds(buf, Shifted(s, offset, i))
    modifies buf
    ensures Holds(buf, InPass(s, offset, i + 1))
  {
    ghost var now, next := Shifted(s, offset, i), InPass(s, offset, i + 1);
    assert i + offset < |s| ==> now[i + offset] == s[i + offset];
    buf[i] := buf[i + offset];
    forall j | 0 <= j < |next|
      ensures buf[j] == next[j] != '\0'
    {
      assert j != i ==> now[j] == old(buf[j]);
      assert next[j] == if j <= i then s[j + offset] else s[j];
    }
  }

  /**
   Strips the first `offset` characters in place. The length is measured anew in every pass, so it
   drops when the terminator has been moved.
   */
  method Strip(buf: array<char>, offset: nat, ghost s: string)
    requires Holds(buf, s) && 0 < offset && 2 * offset <= |s| && buf.Length < WORD
    modifies buf
    ensures Holds(buf, s[offset..])
  {
    ghost var rest := |s| - offset;
    var i := 0;
    var len := StrLen(buf, s);
    while StripGoesOn(i, len, offset)
      invariant i <= rest + 1 && len == |InPass(s, offset, i)|
      invariant Holds(buf, InPass(s, offset, i))
      decreases rest + 1 - i
    {
      CopyDown(buf, offset, i, s);
      i := i + 1;
      len := StrLen(buf, InPass(s, offset, i));
    }
  }

  /**
   The loop stops behind the moved terminator if and only if what remains is at least as long as
   the prefix; a shorter rest wraps the bound around, and the guard holds at every later index.
   */
  lemma StripStopsExactly(len: nat, offset: nat)
    requires 0 < offset <= len < WORD
    ensures var rest := len - offset;
            && (!StripGoesOn(rest + 1, rest, offset) <==> rest >= offset)
            && (rest < offset ==> forall i: nat :: i + offset < WORD ==> StripGoesOn(i, rest, offset))
  {
  }
}
