/*
 * ini_reader_string (lib/inih/ini.c:288-311): the fgets-style reader over an
 * in-memory buffer that ini_parse_string_length hands to the line scanner.
 */
module StringReader {
  import opened CString

  /** How many chars one call copies out of the unread input rest into a
      buffer of num bytes, cap = num - 1: up to and including the first
      newline, and never more than cap or than what is left. */
  function ChunkLen(rest: seq<char>, cap: nat): (n: nat)
    ensures n <= |rest| && n <= cap
    ensures forall k :: 0 <= k < n - 1 ==> rest[k] != '\n'
    ensures n == cap || n == |rest| || (n > 0 && rest[n - 1] == '\n')
    ensures cap > 0 && rest != [] ==> n > 0
  {
    if cap == 0 || rest == [] then 0
    else if rest[0] == '\n' then 1
    else 1 + ChunkLen(rest[1..], cap - 1)
  }

  /** The ini_parse_string_ctx of the source: the buffer, its given length,
      the read pointer and the count of bytes left. */
  class Reader {
    const data: seq<char>
    const length: nat
    var ptr: nat
    var numLeft: nat

    ghost predicate Valid()
      reads this
    {
      ptr + numLeft == length <= |data|
    }

    /** The bytes not read yet; nothing at or past `length` is ever part of it. */
    ghost function Rest(): seq<char>
      reads this
      requires Valid()
    {
      data[ptr..length]
    }

    /** ini_parse_string_length: ctx.ptr = string, ctx.num_left = length. */
    constructor (data: seq<char>, length: nat)
      requires length <= |data|
      ensures Valid() && this.data == data && this.length == length
      ensures ptr == 0 && Rest() == data[..length]
    {
      this.data := data;
      this.length := length;
      ptr := 0;
      numLeft := length;
    }

    /** ini_reader_string(str, num, ctx): NULL (ok == false) when nothing is
        left or num < 2, and then nothing changes; otherwise the next chunk of
        the input is copied into str and terminated, and ptr and numLeft move
        by the same amount. */
    method Read(str: array<char>, num: int) returns (ok: bool)
      requires Valid()
      requires num >= 2 ==> num <= str.Length
      modifies this, str
      ensures Valid()
      ensures ok <==> old(numLeft) != 0 && num >= 2
      ensures !ok ==> ptr == old(ptr) && numLeft == old(numLeft) && str[..] == old(str[..])
      ensures ok ==>
        var n := ChunkLen(old(Rest()), num - 1);
        0 < n < str.Length &&
        ptr == old(ptr) + n && numLeft == old(numLeft) - n && Rest() == old(Rest())[n..] &&
        str[..n] == old(Rest())[..n] && str[n] == NUL && str[n + 1..] == old(str[n + 1..])
    {
      if numLeft == 0 || num < 2 {
        return false;
      }
      ghost var rest := Rest();
      ghost var cap: nat := num - 1;
      ghost var s0 := str[..];
      var p, left, m := ptr, numLeft, num;
      var i := 0;
      while m > 1 && left != 0
        modifies str
        invariant |rest| == numLeft
        invariant 0 <= i <= cap && m == num - i && p == ptr + i && left == numLeft - i
        invariant Copied(str[..], rest, s0, i)
        invariant ChunkLen(rest, cap) == i + ChunkLen(rest[i..], cap - i)
        decreases left
      {
        var c := data[p];
        assert c == rest[i];
        ChunkLenStep(rest, cap, i);
        ghost var b := str[..];
        CopiedStep(b, rest, s0, i);
        p, left := p + 1, left - 1;
        str[i] := c;
        assert str[..] == b[i := c];
        i := i + 1;
        if c == '\n' {
          assert ChunkLen(rest, cap) == i;
          break;
        }
        m := m - 1;
      }
      assert ChunkLen(rest, cap) == i;
      assert data[p..length] == rest[i..];
      ghost var b := str[..];
      CopiedEnd(b, rest, s0, i);
      str[i] := NUL;
      assert str[..] == b[i := NUL];
      assert str[..i] == rest[..i] && str[i + 1..] == s0[i + 1..];
      ptr, numLeft := p, left;
      return true;
    }
  }

  /** buf holds rest[..i] followed by what s0 held from i on. */
  ghost predicate Copied(buf: seq<char>, rest: seq<char>, s0: seq<char>, i: nat) {
    i <= |buf| == |s0| && i <= |rest| && buf[..i] == rest[..i] && buf[i..] == s0[i..]
  }

  lemma CopiedStep(buf: seq<char>, rest: seq<char>, s0: seq<char>, i: nat)
    requires Copied(buf, rest, s0, i) && i < |buf| && i < |rest|
    ensures Copied(buf[i := rest[i]], rest, s0, i + 1)
  {
    var b := buf[i := rest[i]];
    assert b[..i + 1] == buf[..i] + [rest[i]];
    assert rest[..i + 1] == rest[..i] + [rest[i]];
    assert b[i + 1..] == buf[i..][1..];
  }

  lemma CopiedEnd(buf: seq<char>, rest: seq<char>, s0: seq<char>, i: nat)
    requires Copied(buf, rest, s0, i) && i < |buf|
    ensures buf[i := NUL][..i] == rest[..i] && buf[i := NUL][i + 1..] == s0[i + 1..]
  {
    assert buf[i := NUL][..i] == buf[..i];
    assert buf[i := NUL][i + 1..] == buf[i..][1..];
  }

  /** One char of ChunkLen: the chunk stops after a newline and goes on
      after any other char. */
  lemma ChunkLenStep(rest: seq<char>, cap: nat, i: nat)
    requires i < cap && i < |rest|
    ensures rest[i] == '\n' ==> ChunkLen(rest[i..], cap - i) == 1
    ensures rest[i] != '\n' ==> ChunkLen(rest[i..], cap - i) == 1 + ChunkLen(rest[i + 1..], cap - i - 1)
  {
    assert rest[i..][1..] == rest[i + 1..];
  }
}
