/** A model of the helper that turns a buffer of NUL-terminated attribute
    names (the layout Darwin uses for extended-attribute lists) into the list
    of names it holds. A Go `string` is modelled as its raw bytes. */
module DarwinStrings {

  newtype byte = b: int | 0 <= b < 256

  /** The terminator that ends every entry. */
  const NUL: byte := 0

  /** An entry as it comes out of the buffer: the bytes of one name. */
  type Entry = seq<byte>

  /** A buffer is terminated when it is empty or ends with NUL: nothing in it
      is left over after its last entry. */
  predicate Terminated(buf: seq<byte>)
  {
    buf == [] || buf[|buf| - 1] == NUL
  }

  /** Number of NUL bytes in the buffer, counted independently of the parser. */
  function NulCount(buf: seq<byte>): nat
  {
    multiset(buf)[NUL]
  }

  /** Position of the first NUL in the buffer. */
  function FirstNul(buf: seq<byte>): (k: nat)
    requires NUL in buf
    ensures k < |buf| && buf[k] == NUL
    ensures NUL !in buf[..k]
  {
    if buf[0] == NUL then 0
    else
      assert buf == [buf[0]] + buf[1..];
      var k := 1 + FirstNul(buf[1..]);
      assert buf[..k] == [buf[0]] + buf[1..][..k - 1];
      k
  }

  /** The entries of the buffer, in order: every NUL ends one entry, made of
      the bytes since the previous NUL (or since the start). Bytes after the
      last NUL belong to no entry. */
  function Split(buf: seq<byte>): seq<Entry>
    decreases |buf|
  {
    if NUL !in buf then []
    else
      var k := FirstNul(buf);
      [buf[..k]] + Split(buf[k + 1..])
  }

  /** The inverse direction: each entry followed by one NUL, concatenated. */
  function Join(entries: seq<Entry>): seq<byte>
  {
    if entries == [] then [] else entries[0] + [NUL] + Join(entries[1..])
  }

  /** A NUL that has no NUL before it is the first one. */
  lemma FirstNulUnique(buf: seq<byte>, k: nat)
    requires k < |buf| && buf[k] == NUL && NUL !in buf[..k]
    ensures FirstNul(buf) == k
  {
  }

  /** Parsing a terminated buffer followed by anything is parsing the two
      parts separately. */
  lemma {:induction false} SplitAppend(p: seq<byte>, q: seq<byte>)
    requires Terminated(p)
    ensures Split(p + q) == Split(p) + Split(q)
    decreases |p|
  {
    if p == [] {
      assert p + q == q;
    } else {
      assert p[|p| - 1] == NUL;
      var k := FirstNul(p);
      assert (p + q)[..k] == p[..k];
      FirstNulUnique(p + q, k);
      assert (p + q)[k + 1..] == p[k + 1..] + q;
      SplitAppend(p[k + 1..], q);
    }
  }

  /** One step of the scan: a terminated prefix, then an entry without NUL
      and its terminator, yields one more entry at the end. */
  lemma {:induction false} SplitStep(p: seq<byte>, e: Entry)
    requires Terminated(p) && NUL !in e
    ensures Split(p + e + [NUL]) == Split(p) + [e]
  {
    var t := e + [NUL];
    assert p + e + [NUL] == p + t;
    SplitAppend(p, t);
    assert t[..|e|] == e;
    FirstNulUnique(t, |e|);
    assert t[|e| + 1..] == [];
  }

  /** Every entry is free of NUL bytes. */
  lemma {:induction false} SplitEntriesHaveNoNul(buf: seq<byte>)
    ensures forall j :: 0 <= j < |Split(buf)| ==> NUL !in Split(buf)[j]
    decreases |buf|
  {
    if NUL in buf {
      var k := FirstNul(buf);
      SplitEntriesHaveNoNul(buf[k + 1..]);
    }
  }

  /** One entry per NUL byte. */
  lemma {:induction false} SplitCount(buf: seq<byte>)
    ensures |Split(buf)| == NulCount(buf)
    decreases |buf|
  {
    if NUL in buf {
      var k := FirstNul(buf);
      assert buf == buf[..k] + [NUL] + buf[k + 1..];
      assert multiset(buf) == multiset(buf[..k]) + multiset([NUL]) + multiset(buf[k + 1..]);
      SplitCount(buf[k + 1..]);
    }
  }

  /** The result is empty exactly when the buffer holds no NUL (in particular
      when it is empty). */
  lemma SplitEmptyIff(buf: seq<byte>)
    ensures Split(buf) == [] <==> NUL !in buf
  {
  }

  /** Joining the entries back gives the buffer up to and including its last
      NUL; what is left over holds no NUL. */
  lemma {:induction false} JoinSplit(buf: seq<byte>)
    ensures |Join(Split(buf))| <= |buf|
    ensures Join(Split(buf)) == buf[..|Join(Split(buf))|]
    ensures Terminated(Join(Split(buf)))
    ensures NUL !in buf[|Join(Split(buf))|..]
    decreases |buf|
  {
    if NUL in buf {
      var k := FirstNul(buf);
      var rest := buf[k + 1..];
      var es := [buf[..k]] + Split(rest);
      assert es[0] == buf[..k] && es[1..] == Split(rest);
      JoinSplit(rest);
      var j := Join(Split(rest));
      assert Join(es) == buf[..k] + [NUL] + j;
      assert buf[..k + 1 + |j|] == buf[..k] + [NUL] + rest[..|j|];
      assert buf[k + 1 + |j|..] == rest[|j|..];
    }
  }

  /** Splitting the join of NUL-free entries gives back the entries. */
  lemma {:induction false} SplitJoin(entries: seq<Entry>)
    requires forall j :: 0 <= j < |entries| ==> NUL !in entries[j]
    ensures Split(Join(entries)) == entries
    decreases |entries|
  {
    if entries != [] {
      var e := entries[0];
      var s := Join(entries);
      assert s == e + [NUL] + Join(entries[1..]);
      assert s[..|e|] == e;
      FirstNulUnique(s, |e|);
      assert s[|e| + 1..] == Join(entries[1..]);
      SplitJoin(entries[1..]);
    }
  }

  /** An unterminated tail changes nothing: its bytes appear in no entry. */
  lemma {:induction false} SplitIgnoresTail(buf: seq<byte>, tail: seq<byte>)
    requires NUL !in tail
    ensures Split(buf + tail) == Split(buf)
    decreases |buf|
  {
    if NUL in buf {
      var k := FirstNul(buf);
      assert (buf + tail)[..k] == buf[..k];
      FirstNulUnique(buf + tail, k);
      assert (buf + tail)[k + 1..] == buf[k + 1..] + tail;
      SplitIgnoresTail(buf[k + 1..], tail);
    } else {
      assert NUL !in buf + tail;
    }
  }

  /** Entries come in the order of their terminators: the bytes between a
      start position (0, or one past a NUL) and the next NUL form the entry
      whose index is the number of NULs before that start. */
  lemma SplitEntryAt(buf: seq<byte>, s: nat, k: nat)
    requires s <= k < |buf| && buf[k] == NUL
    requires s == 0 || buf[s - 1] == NUL
    requires NUL !in buf[s..k]
    ensures NulCount(buf[..s]) < |Split(buf)|
    ensures Split(buf)[NulCount(buf[..s])] == buf[s..k]
  {
    var p, q := buf[..s], buf[s..];
    assert Split(buf) == Split(p) + Split(q) by {
      assert buf == p + q;
      SplitAppend(p, q);
    }
    assert |Split(p)| == NulCount(p) by {
      SplitCount(p);
    }
    assert Split(q)[0] == buf[s..k] by {
      assert q[..k - s] == buf[s..k];
      FirstNulUnique(q, k - s);
    }
  }

  /** A NUL at position 0 or right after another NUL yields an empty entry. */
  lemma SplitEmptyEntry(buf: seq<byte>, k: nat)
    requires k < |buf| && buf[k] == NUL
    requires k == 0 || buf[k - 1] == NUL
    ensures NulCount(buf[..k]) < |Split(buf)|
    ensures Split(buf)[NulCount(buf[..k])] == []
  {
    SplitEntryAt(buf, k, k);
  }

  /** The single scan of the buffer: `off` is where the current entry starts,
      and every NUL appends the bytes since `off`. */
  method StringsFromByteSlice(buf: seq<byte>) returns (result: seq<Entry>)
    ensures result == Split(buf)
  {
    result := [];
    var off := 0;
    var i := 0;
    while i < |buf|
      invariant 0 <= off <= i <= |buf|
      invariant off == 0 || buf[off - 1] == NUL
      invariant NUL !in buf[off..i]
      invariant result == Split(buf[..off])
    {
      if buf[i] == NUL {
        assert Split(buf[..i + 1]) == result + [buf[off..i]] by {
          assert buf[..i + 1] == buf[..off] + buf[off..i] + [NUL];
          SplitStep(buf[..off], buf[off..i]);
        }
        result := result + [buf[off..i]];
        off := i + 1;
      } else {
        assert buf[off..i + 1] == buf[off..i] + [buf[i]];
      }
      i := i + 1;
    }
    assert Split(buf) == Split(buf[..off]) + Split(buf[off..]) by {
      assert buf == buf[..off] + buf[off..];
      SplitAppend(buf[..off], buf[off..]);
    }
    assert buf[off..] == buf[off..i];
  }
}
