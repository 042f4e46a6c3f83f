/**
 * The flattened device tree in its buffer (Devicetree Specification v0.4, section 5.2), and the
 * byte moves every edit of libs/libfdt/fdt_rw.c is built on.
 */
module Blobs {
  import opened Bytes
  import opened Tree
  import opened Encoding
  import opened Positions
  import opened Tags

  class Blob {
    const mem: array<byte>
    var totalsize: nat
    var offRsv: nat
    var offStruct: nat
    var sizeStruct: nat
    var offStrings: nat
    var sizeStrings: nat
    ghost var bytes: Str    // what mem holds
    ghost var root: Forest  // the tree the structure block encodes

    /** The blocks lie in the buffer in the order every editing call requires. */
    ghost predicate Layout()
      reads this, mem
    {
      && mem[..] == bytes
      && 40 <= offRsv
      && offRsv + 16 <= offStruct
      && offStruct + sizeStruct <= offStrings
      && offStrings + sizeStrings <= totalsize
      && totalsize <= mem.Length
      && totalsize < INT_MAX
    }

    /** The memory reservation block. */
    ghost function Reserve(): Str
      reads this, mem
      requires Layout()
    {
      Block(bytes, offRsv, offStruct - offRsv)
    }

    ghost function View(): (v: Fdt)
      reads this, mem
      requires Layout()
      ensures |v.struct| == sizeStruct && |v.strs| == sizeStrings
    {
      Fdt(Block(bytes, offStruct, sizeStruct), Block(bytes, offStrings, sizeStrings))
    }

    /** The structure and strings blocks, for the read-only functions. */
    method Read() returns (v: Fdt)
      requires Layout()
      ensures v == View()
    {
      v := Fdt(mem[..][offStruct..offStruct + sizeStruct], mem[..][offStrings..offStrings + sizeStrings]);
    }

    /** The structure block encodes exactly the tree root: one node, then the end tag. */
    ghost predicate Valid()
      reads this, mem
    {
      Layout() && IsRoot(root) && Encodes(View(), root)
    }

    constructor (buf: array<byte>, total: nat, rsv: nat, struct: nat, structSize: nat, strings: nat, stringsSize: nat)
      ensures mem == buf && bytes == buf[..] && totalsize == total && offRsv == rsv && offStruct == struct
              && sizeStruct == structSize
      ensures offStrings == strings && sizeStrings == stringsSize
    {
      mem, bytes := buf, buf[..];
      totalsize, offRsv, offStruct, sizeStruct, offStrings, sizeStrings := total, rsv, struct, structSize, strings,
        stringsSize;
    }

    /** fdt_data_size_. */
    function DataSize(): nat
      reads this
    {
      offStrings + sizeStrings
    }

    /** fdt_splice_: replace oldlen bytes of the buffer at byte at by newlen bytes still to be written. */
    method Splice(at: nat, oldlen: nat, newlen: nat) returns (err: int)
      requires Layout() && at + oldlen <= DataSize()
      modifies this`bytes, mem
      ensures Layout()
      ensures err == if DataSize() - oldlen + newlen > totalsize then -NOSPACE else 0
      ensures err != 0 ==> bytes == old(bytes)
      ensures err == 0 ==> Moved(old(bytes), bytes, at, oldlen, newlen, DataSize())
    {
      var dsize := DataSize();
      if dsize - oldlen + newlen > totalsize {
        return -NOSPACE;
      }
      forall i | 0 <= i < dsize - (at + oldlen) {
        mem[at + newlen + i] := mem[at + oldlen + i];
      }
      bytes := mem[..];
      err := 0;
    }

    /** fdt_splice_struct_, at offset p of the structure block. */
    method SpliceStruct(p: nat, oldlen: nat, newlen: nat) returns (err: int)
      requires Layout() && p + oldlen <= sizeStruct
      modifies this`sizeStruct, this`offStrings, this`bytes, mem
      ensures Layout() && Reserve() == old(Reserve())
      ensures err == if old(DataSize()) - oldlen + newlen > totalsize then -NOSPACE else 0
      ensures err != 0 ==> View() == old(View()) && DataSize() == old(DataSize())
      ensures err == 0 ==> View().strs == old(View().strs)
      ensures err == 0 ==> Spliced(old(View().struct), View().struct, p, oldlen, newlen)
      ensures err == 0 ==> SameStart(old(View().struct), View().struct, p + Min(oldlen, newlen))
      ensures err == 0 ==> DataSize() == old(DataSize()) - oldlen + newlen
                           && sizeStruct == old(sizeStruct) - oldlen + newlen
    {
      hide Moved, Spliced, Block, SameStart, Min;
      ghost var m, size, strings := bytes, sizeStruct, offStrings;
      err := Splice(offStruct + p, oldlen, newlen);
      if err != 0 {
        return;
      }
      sizeStruct := sizeStruct - oldlen + newlen;
      offStrings := offStrings - oldlen + newlen;
      MovedBlocks(m, bytes, offRsv, offStruct, size, sizeStruct, strings, offStrings, sizeStrings, p, oldlen, newlen);
    }

    /** fdt32_st at offset o of the structure block. */
    method StoreCell(o: nat, x: nat)
      requires Layout() && o + 4 <= sizeStruct && x < U32
      modifies this`bytes, mem
      ensures Layout() && Reserve() == old(Reserve())
      ensures View() == old(View()).(struct := Overwrite(old(View().struct), o, Put32(x)))
    {
      Store(o, Put32(x));
    }

    /** memcpy to offset o of the structure block. */
    method Store(o: nat, d: Str)
      requires Layout() && o + |d| <= sizeStruct
      modifies this`bytes, mem
      ensures Layout() && Reserve() == old(Reserve())
      ensures View() == old(View()).(struct := Overwrite(old(View().struct), o, d))
    {
      hide Overwrite, Block;
      ghost var m := bytes;
      Poke(offStruct + o, d);
      WrittenBlocks(m, bytes, offRsv, offStruct, sizeStruct, offStrings, sizeStrings, o, d);
    }

    method Poke(at: nat, d: Str)
      requires Layout() && at + |d| <= mem.Length
      modifies this`bytes, mem
      ensures Layout() && bytes == Overwrite(old(bytes), at, d)
    {
      forall i | 0 <= i < |d| {
        mem[at + i] := d[i];
      }
      bytes := mem[..];
    }
  }

  /** n is m with the bytes from at + oldlen up to d moved to at + newlen, and all before that untouched. */
  ghost predicate Moved(m: Str, n: Str, at: nat, oldlen: nat, newlen: nat, d: nat) {
    && |m| == |n| && at + oldlen <= d <= |m| && d - oldlen + newlen <= |m|
    && (forall i | 0 <= i < at + newlen :: n[i] == m[i])
    && (forall i | at + newlen <= i < d - oldlen + newlen :: n[i] == m[i - newlen + oldlen])
  }

  lemma SameRun(m: Str, n: Str, lo: nat, lo': nat, len: nat)
    requires lo + len <= |m| && lo' + len <= |n|
    requires forall i | lo' <= i < lo' + len :: n[i] == m[i - lo' + lo]
    ensures n[lo'..lo' + len] == m[lo..lo + len]
  {
    var x, y := n[lo'..lo' + len], m[lo..lo + len];
    assert forall k | 0 <= k < len :: x[k] == y[k];
  }

  /** Where the three blocks are after bytes of the structure block have been replaced. */
  lemma MovedBlocks(m: Str, n: Str, rsv: nat, st: nat, size: nat, size': nat, strs: nat, strs': nat, ssize: nat,
                    p: nat, oldlen: nat, newlen: nat)
    requires rsv <= st && st + size <= strs && strs + ssize <= |m| && |n| == |m| && p + oldlen <= size
    requires size' == size - oldlen + newlen && strs' == strs - oldlen + newlen && strs' + ssize <= |m|
    requires Moved(m, n, st + p, oldlen, newlen, strs + ssize)
    ensures Block(n, rsv, st - rsv) == Block(m, rsv, st - rsv)
    ensures Block(n, strs', ssize) == Block(m, strs, ssize)
    ensures Spliced(Block(m, st, size), Block(n, st, size'), p, oldlen, newlen)
    ensures SameStart(Block(m, st, size), Block(n, st, size'), p + Min(oldlen, newlen))
  {
    hide Spliced, SameStart, Block;
    MovedRun(m, n, rsv, rsv, st - rsv);
    MovedRun(m, n, strs, strs', ssize);
    MovedStart(m, n, st, size, size', p + Min(oldlen, newlen));
    MovedStruct(m, n, st, size, size', p, oldlen, newlen);
  }

  lemma MovedRun(m: Str, n: Str, lo: nat, lo': nat, len: nat)
    requires lo + len <= |m| && lo' + len <= |n|
    requires forall i | lo' <= i < lo' + len :: n[i] == m[i - lo' + lo]
    ensures Block(n, lo', len) == Block(m, lo, len)
  {
    SameRun(m, n, lo, lo', len);
  }

  lemma MovedStart(m: Str, n: Str, st: nat, size: nat, size': nat, k: nat)
    requires st + size <= |m| && st + size' <= |n| && k <= size && k <= size'
    requires forall i | st <= i < st + k :: n[i] == m[i]
    ensures SameStart(Block(m, st, size), Block(n, st, size'), k)
  {
    SameRun(m, n, st, st, k);
    SliceSlice(n, st, st + size', 0, k);
    SliceSlice(m, st, st + size, 0, k);
  }

  lemma MovedStruct(m: Str, n: Str, st: nat, size: nat, size': nat, p: nat, oldlen: nat, newlen: nat)
    requires st + size <= |m| && st + size' <= |n| && p + oldlen <= size && size' == size - oldlen + newlen
    requires forall i | st <= i < st + p :: n[i] == m[i]
    requires forall i | st + p + newlen <= i < st + size' :: n[i] == m[i - newlen + oldlen]
    ensures Spliced(Block(m, st, size), Block(n, st, size'), p, oldlen, newlen)
  {
    SameRun(m, n, st, st, p);
    SameRun(m, n, st + p + oldlen, st + p + newlen, size - p - oldlen);
    SliceSlice(n, st, st + size', 0, p);
    SliceSlice(m, st, st + size, 0, p);
    SliceSlice(n, st, st + size', p + newlen, size');
    SliceSlice(m, st, st + size, p + oldlen, size);
  }

  lemma WrittenBlocks(m: Str, n: Str, rsv: nat, st: nat, size: nat, strs: nat, ssize: nat, o: nat, d: Str)
    requires rsv <= st && st + size <= strs && strs + ssize <= |m| && o + |d| <= size
    requires n == Overwrite(m, st + o, d)
    ensures Block(n, rsv, st - rsv) == Block(m, rsv, st - rsv)
    ensures Block(n, strs, ssize) == Block(m, strs, ssize)
    ensures Block(n, st, size) == Overwrite(Block(m, st, size), o, d)
  {
    SameRun(m, n, rsv, rsv, st - rsv);
    SameRun(m, n, strs, strs, ssize);
    var s, t := n[st..st + size], Overwrite(m[st..st + size], o, d);
    forall k | 0 <= k < size
      ensures s[k] == t[k]
    {
      assert s[k] == n[st + k];
      assert t[k] == if o <= k < o + |d| then d[k - o] else m[st + k];
    }
    assert s == t;
  }
}
