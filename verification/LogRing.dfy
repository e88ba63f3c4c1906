/** src/log_buf.c: the ring that keeps the last characters of the log. */
module LogRing {
  import opened BitUtils

  /** The last n elements. */
  function Last<T>(n: nat, s: seq<T>): (r: seq<T>)
    requires n <= |s|
    ensures |r| == n
  {
    s[|s| - n..]
  }

  /** The NUL characters of a fresh buffer. */
  function Blank(n: nat): (s: string)
    ensures |s| == n
  {
    seq(n, _ => '\0')
  }

  class Ring {
    const buf: array<char>
    var count: nat
    ghost var written: string  // everything written since the start

    ghost predicate Valid()
      reads this, buf
    {
      && count < buf.Length
      && count == |written| % buf.Length
      && Readout() == Last(buf.Length, Blank(buf.Length) + written)
    }

    /** The buffer read from `count` on, around the end. */
    function Readout(): string
      requires count <= buf.Length
      reads this, buf
    {
      Rotated(buf[..], count)
    }

    constructor (size: nat)
      requires size > 0
      ensures Valid() && written == "" && buf.Length == size && fresh(buf)
    {
      buf := new char[size](_ => '\0');
      count, written := 0, "";
      new;
      assert buf[..] == Blank(size);
    }

    /** stub_lib_log_buf_write_char. */
    method WriteChar(c: char)
      requires Valid()
      modifies this, buf
      ensures Valid() && written == old(written) + [c]
    {
      hide Rotated, Last, Blank;
      ghost var s, k, n := buf[..], count, buf.Length;
      RotateStep(s, k, c);
      LastStep(n, Blank(n) + written, c);
      NextPosition(|written|, n);
      buf[count] := c;
      count := (count + 1) % buf.Length;
      written := written + [c];
      assert buf[..] == s[k := c];
      assert Blank(n) + written == Blank(n) + old(written) + [c];
    }
  }

  /** Each of the latest characters lies at its number modulo the size of the buffer. */
  lemma LatestAt(ring: Ring, j: nat)
    requires ring.Valid() && |ring.written| - ring.buf.Length <= j < |ring.written|
    ensures ring.buf[j % ring.buf.Length] == ring.written[j]
  {
    hide Blank;
    var n, len := ring.buf.Length, |ring.written|;
    var i := j - (len - n);
    assert ring.Readout()[i] == (Blank(n) + ring.written)[len + i];
    var q, k := len / n, ring.count;
    assert len == n * q + k;
    if k + i < n {
      assert n * (q - 1) == n * q - n;
      DivModUnique(j, n, q - 1, k + i);
    } else {
      DivModUnique(j, n, q, k + i - n);
    }
  }

  lemma NextPosition(k: nat, n: nat)
    requires n > 0
    ensures (k % n + 1) % n == (k + 1) % n
  {
    var q, r := k / n, k % n;
    assert k == n * q + r;
    if r + 1 < n {
      DivModUnique(k + 1, n, q, r + 1);
      DivModUnique(r + 1, n, 0, r + 1);
    } else {
      assert n * (q + 1) == n * q + n;
      DivModUnique(k + 1, n, q + 1, 0);
      DivModUnique(n, n, 1, 0);
    }
  }

  /** Reading a buffer of characters from position k on, around the end. */
  function Rotated(s: string, k: nat): string
    requires k <= |s|
  {
    s[k..] + s[..k]
  }

  /** Overwriting the oldest character and moving on drops it and appends the new one. */
  lemma RotateStep(s: string, k: nat, c: char)
    requires k < |s|
    ensures Rotated(s[k := c], (k + 1) % |s|) == Rotated(s, k)[1..] + [c]
  {
    var n := |s|;
    var next := (k + 1) % n;
    if k + 1 == n {
      DivModUnique(n, n, 1, 0);
    } else {
      DivModUnique(k + 1, n, 0, k + 1);
    }
    assert next == if k + 1 == n then 0 else k + 1;
  }

  lemma LastStep(n: nat, s: string, c: char)
    requires 0 < n <= |s|
    ensures Last(n, s + [c]) == Last(n, s)[1..] + [c]
  {
  }

  /** The tail of the readout is the most recent text, as much as there is and fits. */
  lemma RecentText(n: nat, written: string)
    ensures var k := if |written| < n then |written| else n;
            Last(k, Last(n, Blank(n) + written)) == Last(k, written)
  {
  }
}
