/** The replay buffer: the newest bytes of a stream, overwritten in place once it is full. */
module ByteRing {
  import opened Bytes

  const MAX_SCROLLBACK := 256 * 1024

  class Ring {
    var buf: array<Byte>  // the allocation; its length is the slice's capacity
    var len: nat          // bytes in use
    var start: nat        // index of the oldest byte once full

    ghost predicate Valid()
      reads this
    {
      && len <= buf.Length && len <= MAX_SCROLLBACK
      && start < MAX_SCROLLBACK && (start > 0 ==> len == MAX_SCROLLBACK)
    }

    /** Oldest byte first. */
    ghost function Contents(): seq<Byte>
      requires Valid()
      reads this, buf
    {
      buf[start..len] + buf[..start]
    }

    constructor ()
      ensures Valid() && fresh(buf) && Contents() == []
    {
      buf := new Byte[0];
      len, start := 0, 0;
    }

    /** Go's copy: as many bytes as fit between two indices. */
    static method Copy(dst: array<Byte>, lo: nat, hi: nat, src: seq<Byte>) returns (n: nat)
      requires lo <= hi <= dst.Length
      modifies dst
      ensures n == if |src| < hi - lo then |src| else hi - lo
      ensures dst[..] == Pasted(old(dst[..]), lo, src[..n])
    {
      n := if |src| < hi - lo then |src| else hi - lo;
      for i := 0 to n
        invariant forall k | 0 <= k < lo || lo + i <= k < dst.Length :: dst[k] == old(dst[k])
        invariant forall k | 0 <= k < i :: dst[lo + k] == src[k]
      {
        dst[lo + i] := src[i];
      }
    }

    /** The ring always holds the last MAX_SCROLLBACK bytes of everything appended. */
    method Append(p: seq<Byte>)
      requires Valid()
      modifies this, buf
      ensures Valid() && (buf == old(buf) || fresh(buf))
      ensures Contents() == Tail(old(Contents()) + p, 262144)
    {
      if |p| == 0 {
        assert Contents() + p == Contents();
        return;
      }
      if |p| >= MAX_SCROLLBACK {
        Replace(p);
        return;
      }
      if len < MAX_SCROLLBACK {
        if len + |p| <= MAX_SCROLLBACK {
          AppendSlice(p);
          return;
        }
        Fill(p);
        return;
      }
      Overwrite(p);
    }

    /** A chunk as long as the ring replaces everything in it. */
    method Replace(p: seq<Byte>)
      requires Valid() && |p| >= MAX_SCROLLBACK
      modifies this, buf
      ensures Valid() && (buf == old(buf) || fresh(buf))
      ensures Contents() == Tail(old(Contents()) + p, MAX_SCROLLBACK)
    {
      ghost var was := Contents();
      if buf.Length < MAX_SCROLLBACK {
        buf := new Byte[MAX_SCROLLBACK];
      }
      len := MAX_SCROLLBACK;
      ghost var spare := buf[len..];
      assert buf[..] == buf[..len] + spare;
      PasteSpare(buf[..len], spare, 0, p[|p| - MAX_SCROLLBACK..]);
      var n := Copy(buf, 0, len, p[|p| - MAX_SCROLLBACK..]);
      start := 0;
      TailOfLong(was, p, MAX_SCROLLBACK);
    }

    /** The chunk that fills the ring moves the part that is kept into a full-size allocation. */
    method Fill(p: seq<Byte>)
      requires Valid() && |p| < MAX_SCROLLBACK && len < MAX_SCROLLBACK < len + |p|
      modifies this, buf
      ensures Valid() && fresh(buf)
      ensures Contents() == Tail(old(Contents()) + p, MAX_SCROLLBACK)
    {
      ghost var was := Contents();
      assert was == buf[..len];
      var keep := MAX_SCROLLBACK - |p|;
      var next := new Byte[MAX_SCROLLBACK];
      ghost var blank := next[..];
      var kept := buf[len - keep..len];
      var n := Copy(next, 0, next.Length, kept);
      n := Copy(next, keep, next.Length, p);
      PasteBoth(blank, kept, p);
      buf, len, start := next, MAX_SCROLLBACK, 0;
      TailKeeps(was, p, MAX_SCROLLBACK);
    }

    /** Go's append, into spare capacity when there is enough and into a new allocation otherwise. */
    method AppendSlice(p: seq<Byte>)
      requires Valid() && len + |p| <= MAX_SCROLLBACK && len < MAX_SCROLLBACK
      modifies this, buf
      ensures Valid() && (buf == old(buf) || fresh(buf))
      ensures Contents() == old(Contents()) + p
    {
      ghost var was := Contents();
      assert was == buf[..len];
      if len + |p| > buf.Length {
        var capacity: nat :| capacity >= len + |p|;
        var next := new Byte[capacity];
        var n := Copy(next, 0, capacity, buf[..len]);
        assert next[..len] == was;
        buf := next;
      }
      var n := Copy(buf, len, buf.Length, p);
      assert buf[..][..len + |p|] == was + p;
      len := len + |p|;
    }

    /** The full ring: the new bytes take the places of the oldest. */
    method Overwrite(p: seq<Byte>)
      requires Valid() && len == MAX_SCROLLBACK && 0 < |p| < MAX_SCROLLBACK
      modifies this, buf
      ensures Valid() && buf == old(buf)
      ensures Contents() == Tail(old(Contents()) + p, MAX_SCROLLBACK)
    {
      ghost var before, s := buf[..], start;
      ghost var was := Contents();
      var first := Copy(buf, start, len, p);
      var n := Copy(buf, 0, len, p[first..]);
      assert p[first..][..n] == p[first..];
      start := Advance(start, |p|);
      ghost var now := buf[..];
      assert Contents() == now[start..len] + now[..start];
      OverwrittenWithin(before, len, p, s);
      assert Contents() == was[|p|..] + p;
      FullTail(was, p);
    }

    /** A copy of the history, oldest byte first. */
    method Snapshot() returns (out: seq<Byte>)
      requires Valid()
      ensures out == Contents()
    {
      if start == 0 || len < MAX_SCROLLBACK {
        out := buf[..len];
      } else {
        out := buf[start..len];
        out := out + buf[..start];
      }
    }
  }

  function Advance(i: nat, n: nat): (e: nat)
    requires i < MAX_SCROLLBACK && n < MAX_SCROLLBACK
    ensures e == if i + n < MAX_SCROLLBACK then i + n else i + n - MAX_SCROLLBACK
  {
    (i + n) % MAX_SCROLLBACK
  }

  /** s with src written over it from index at. */
  function Pasted<T>(s: seq<T>, at: nat, src: seq<T>): (r: seq<T>)
    requires at + |src| <= |s|
    ensures |r| == |s|
  {
    s[..at] + src + s[at + |src|..]
  }

  lemma PasteSpare<T>(s: seq<T>, spare: seq<T>, at: nat, src: seq<T>)
    requires at + |src| <= |s|
    ensures Pasted(s + spare, at, src) == Pasted(s, at, src) + spare
  {
  }

  lemma PasteBoth<T>(s: seq<T>, a: seq<T>, b: seq<T>)
    requires |s| == |a| + |b|
    ensures Pasted(Pasted(s, 0, a[..|a|]), |a|, b[..|b|]) == a + b
  {
  }

  lemma TailOfLong<T>(s: seq<T>, t: seq<T>, n: nat)
    requires |t| >= n
    ensures Tail(s + t, n) == t[|t| - n..]
  {
  }

  lemma TailKeeps<T>(s: seq<T>, t: seq<T>, n: nat)
    requires |t| < n < |s| + |t|
    ensures Tail(s + t, n) == s[|s| + |t| - n..] + t
  {
  }

  lemma FullTail<T>(s: seq<T>, t: seq<T>)
    requires |t| < |s| == MAX_SCROLLBACK
    ensures Tail(s + t, MAX_SCROLLBACK) == s[|t|..] + t
  {
  }

  /** Two copies, one up to the end and one from the front, drop the oldest bytes and add the new ones. */
  lemma Overwritten<T>(was: seq<T>, p: seq<T>, s: nat)
    requires s < |was| && 0 < |p| < |was|
    ensures var first := if |p| < |was| - s then |p| else |was| - s;
            var now := Pasted(Pasted(was, s, p[..first]), 0, p[first..]);
            var e := if s + |p| < |was| then s + |p| else s + |p| - |was|;
            now[e..] + now[..e] == (was[s..] + was[..s])[|p|..] + p
  {
    var x := was[s..] + was[..s];
    if |p| < |was| - s {
      OverwrittenInside(was, p, s);
      assert p[..|p|] == p && p[|p|..] == [];
      var now := Pasted(was, s, p);
      assert Pasted(now, 0, []) == now;
    } else {
      var first := |was| - s;
      var a, b := p[..first], p[first..];
      assert p == a + b;
      OverwrittenAround(was, a, b, s);
      var mid := Pasted(was, s, a);
      assert mid == was[..s] + a;
      assert Pasted(mid, 0, b) == b + was[|b|..s] + a;
    }
  }

  /** The same in an allocation longer than the ring. */
  lemma OverwrittenWithin<T>(buf: seq<T>, len: nat, p: seq<T>, s: nat)
    requires s < len <= |buf| && 0 < |p| < len
    ensures var first := if |p| < len - s then |p| else len - s;
            var now := Pasted(Pasted(buf, s, p[..first]), 0, p[first..]);
            var e := if s + |p| < len then s + |p| else s + |p| - len;
            now[e..len] + now[..e] == (buf[s..len] + buf[..s])[|p|..] + p
  {
    var was, spare := buf[..len], buf[len..];
    var first := if |p| < len - s then |p| else len - s;
    assert buf == was + spare;
    PasteSpare(was, spare, s, p[..first]);
    var mid := Pasted(was, s, p[..first]);
    PasteSpare(mid, spare, 0, p[first..]);
    var now := Pasted(mid, 0, p[first..]);
    var e := if s + |p| < len then s + |p| else s + |p| - len;
    assert (now + spare)[e..len] == now[e..] && (now + spare)[..e] == now[..e];
    assert was[s..] == buf[s..len] && was[..s] == buf[..s];
    Overwritten(was, p, s);
  }

  lemma OverwrittenInside<T>(was: seq<T>, p: seq<T>, s: nat)
    requires s < |was| && |p| < |was| - s
    ensures var now := Pasted(was, s, p); var e := s + |p|;
            now[e..] + now[..e] == (was[s..] + was[..s])[|p|..] + p
  {
  }

  lemma OverwrittenAround<T>(was: seq<T>, a: seq<T>, b: seq<T>, s: nat)
    requires s < |was| && |was| - s == |a| && |a + b| < |was|
    ensures var now := b + was[|b|..s] + a;
            now[|b|..] + now[..|b|] == (was[s..] + was[..s])[|a + b|..] + (a + b)
  {
  }

  function AppendAll(s: seq<Byte>, chunks: seq<seq<Byte>>): seq<Byte>
    decreases chunks
  {
    if chunks == [] then s else AppendAll(Tail(s + chunks[0], MAX_SCROLLBACK), chunks[1..])
  }

  /** After any sequence of appends the ring holds the tail of the whole stream, wherever its chunks end. */
  lemma {:induction false} RingIsTailOfStream(s: seq<Byte>, chunks: seq<seq<Byte>>)
    ensures AppendAll(Tail(s, MAX_SCROLLBACK), chunks) == Tail(s + Flatten(chunks), MAX_SCROLLBACK)
    decreases chunks
  {
    if chunks == [] {
      assert s + Flatten(chunks) == s;
    } else {
      TailOfTail(s, chunks[0], MAX_SCROLLBACK);
      RingIsTailOfStream(s + chunks[0], chunks[1..]);
      assert s + Flatten(chunks) == s + chunks[0] + Flatten(chunks[1..]);
    }
  }
}
