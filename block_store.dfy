/**
 * The card's storage: a sparse dictionary from block address to block
 * content. Reads of an address never written see a zero-filled block, writes
 * insert or overwrite, and the store exports as a contiguous image or as a
 * stream of (address, content) records that it can import again.
 */
module BlockStore {
  import opened Errors
  import opened Bytes

  const BLOCK_SIZE: nat := 512

  /** A dictionary record: a 4-byte big-endian address followed by one block. */
  const RECORD_SIZE: nat := 516

  /** `bytes(n)`: n bytes of value zero. */
  function Zeros(n: nat): (z: seq<Byte>)
    ensures |z| == n && forall i :: 0 <= i < n ==> z[i] == 0
  {
    seq(n, _ => 0)
  }

  predicate NoDuplicates(s: seq<nat>) {
    forall i, j :: 0 <= i < j < |s| ==> s[i] != s[j]
  }

  /**
   * A Python dict from address to content: the mapping, and its keys in
   * insertion order, the order in which the dict yields its keys and items.
   */
  datatype Dict = Dict(order: seq<nat>, blocks: map<nat, seq<Byte>>) {

    /** Every key is listed exactly once. */
    ghost predicate Valid() {
      NoDuplicates(order) && forall a :: a in blocks <==> a in order
    }

    /** `d[addr] = content`: a new key goes last, an existing key keeps its place. */
    function Put(addr: nat, content: seq<Byte>): (d: Dict)
      ensures Valid() ==> d.Valid()
      ensures d.blocks.Keys == blocks.Keys + {addr} && d.blocks[addr] == content
      ensures forall a :: a in blocks && a != addr ==> d.blocks[a] == blocks[a]
      ensures |order| <= |d.order| <= |order| + 1 && d.order[..|order|] == order
    {
      Dict(if addr in blocks then order else order + [addr], blocks[addr := content])
    }

    /** read_block: the stored content, or a zero-filled block for an address never written. */
    function Read(addr: nat): (block: seq<Byte>)
      ensures addr in blocks ==> block == blocks[addr]
      ensures addr !in blocks ==> |block| == BLOCK_SIZE && forall i :: 0 <= i < |block| ==> block[i] == 0
    {
      if addr in blocks then blocks[addr] else Zeros(BLOCK_SIZE)
    }
  }

  const Empty: Dict := Dict([], map[])

  /** After a write, reading the written address gives the content; every other address is unchanged. */
  lemma ReadAfterPut(d: Dict, addr: nat, content: seq<Byte>, other: nat)
    ensures d.Put(addr, content).Read(addr) == content
    ensures other != addr ==> d.Put(addr, content).Read(other) == d.Read(other)
  {
  }

  /** Reading an address never written gives 512 zero bytes. */
  lemma ReadMiss(d: Dict, addr: nat)
    requires addr !in d.blocks
    ensures |d.Read(addr)| == BLOCK_SIZE && forall i :: 0 <= i < BLOCK_SIZE ==> d.Read(addr)[i] == 0
  {
  }

  /** Listing the keys once each means the list is as long as the dict. */
  lemma OrderCount(d: Dict)
    requires d.Valid()
    ensures |d.order| == |d.blocks|
  {
    DistinctCount(d.order);
    assert d.blocks.Keys == Elements(d.order);
  }

  function Elements(s: seq<nat>): set<nat> {
    set a | a in s
  }

  lemma {:induction false} DistinctCount(s: seq<nat>)
    requires NoDuplicates(s)
    ensures |Elements(s)| == |s|
  {
    if s != [] {
      var init, last := s[..|s| - 1], s[|s| - 1];
      DistinctCount(init);
      assert s == init + [last];
      assert Elements(s) == Elements(init) + {last};
    }
  }

  /** A write adds one entry exactly when the address is new. */
  lemma CountAfterPut(d: Dict, addr: nat, content: seq<Byte>)
    ensures |d.Put(addr, content).blocks| == |d.blocks| + (if addr in d.blocks then 0 else 1)
  {
  }

  // ---------------------------------------------------------------- contiguous image

  ghost function Min(s: set<nat>): (m: nat)
    requires s != {}
    ensures m in s && forall x :: x in s ==> m <= x
  {
    var x :| x in s;
    if s == {x} then x
    else
      var m := Min(s - {x});
      assert forall y :: y in s ==> y == x || y in s - {x};
      if x <= m then x else m
  }

  ghost function Max(s: set<nat>): (m: nat)
    requires s != {}
    ensures m in s && forall x :: x in s ==> x <= m
  {
    var x :| x in s;
    if s == {x} then x
    else
      var m := Max(s - {x});
      assert forall y :: y in s ==> y == x || y in s - {x};
      if x >= m then x else m
  }

  /** Members of a set below and above all its members are its minimum and maximum. */
  lemma Extremes(s: set<nat>, lo: nat, hi: nat)
    requires lo in s && hi in s && forall a :: a in s ==> lo <= a <= hi
    ensures lo == Min(s) && hi == Max(s)
  {
  }

  /** The first and last entries of a non-empty list once sorted: its least and greatest. */
  method Bounds(list: seq<nat>) returns (first: nat, last: nat)
    requires list != []
    ensures first in list && last in list
    ensures forall a :: a in list ==> first <= a <= last
  {
    first, last := list[0], list[0];
    for j := 1 to |list|
      invariant first in list && last in list
      invariant forall k :: 0 <= k < j ==> first <= list[k] <= last
    {
      if list[j] < first {
        first := list[j];
      }
      if list[j] > last {
        last := list[j];
      }
    }
  }

  /** The blocks lo, lo + 1, ..., lo + n - 1, each read with zero fill, one after the other. */
  function Span(d: Dict, lo: nat, n: nat): seq<Byte> {
    if n == 0 then [] else Span(d, lo, n - 1) + d.Read(lo + n - 1)
  }

  /**
   * export_to_file's bytes: every block from the smallest to the largest
   * stored address; an empty store fails at `block_list[0]`.
   */
  ghost function Image(d: Dict): (r: Result<seq<Byte>>)
    ensures r.Err? <==> d.blocks == map[]
    ensures r.Err? ==> r.error == IndexError
  {
    if d.blocks == map[] then Err(IndexError)
    else
      var lo, hi := Min(d.blocks.Keys), Max(d.blocks.Keys);
      Ok(Span(d, lo, hi - lo + 1))
  }

  /** With 512-byte blocks, block lo + k sits at byte offset 512 * k of a span. */
  lemma {:induction false} SpanLayout(d: Dict, lo: nat, n: nat)
    requires forall a :: a in d.blocks ==> |d.blocks[a]| == BLOCK_SIZE
    ensures |Span(d, lo, n)| == n * BLOCK_SIZE
    ensures forall k :: 0 <= k < n ==>
      Span(d, lo, n)[k * BLOCK_SIZE..(k + 1) * BLOCK_SIZE] == d.Read(lo + k)
  {
    if n > 0 {
      SpanLayout(d, lo, n - 1);
      var prev, block := Span(d, lo, n - 1), d.Read(lo + n - 1);
      var span := Span(d, lo, n);
      assert span == prev + block;
      assert |block| == BLOCK_SIZE;
      forall k | 0 <= k < n
        ensures span[k * BLOCK_SIZE..(k + 1) * BLOCK_SIZE] == d.Read(lo + k)
      {
        if k < n - 1 {
          assert span[k * BLOCK_SIZE..(k + 1) * BLOCK_SIZE] == prev[k * BLOCK_SIZE..(k + 1) * BLOCK_SIZE];
        } else {
          assert k * BLOCK_SIZE == |prev|;
          assert span[|prev|..|prev| + BLOCK_SIZE] == block;
        }
      }
    }
  }

  /**
   * The image of a non-empty store of 512-byte blocks is (max - min + 1)
   * blocks long, and block i sits at byte offset (i - min) * 512.
   */
  lemma ImageLayout(d: Dict, i: nat)
    requires d.blocks != map[]
    requires forall a :: a in d.blocks ==> |d.blocks[a]| == BLOCK_SIZE
    requires Min(d.blocks.Keys) <= i <= Max(d.blocks.Keys)
    ensures Image(d).Ok?
    ensures |Image(d).value| == (Max(d.blocks.Keys) - Min(d.blocks.Keys) + 1) * BLOCK_SIZE
    ensures Image(d).value[(i - Min(d.blocks.Keys)) * BLOCK_SIZE..(i - Min(d.blocks.Keys) + 1) * BLOCK_SIZE]
      == d.Read(i)
  {
    var lo, hi := Min(d.blocks.Keys), Max(d.blocks.Keys);
    SpanLayout(d, lo, hi - lo + 1);
    assert lo + (i - lo) == i;
  }

  /** Blocks 0 and 2 written, block 1 not: the image is block 0, then 512 zero bytes, then block 2. */
  lemma ImageWithHole(b0: seq<Byte>, b2: seq<Byte>)
    ensures Image(Empty.Put(0, b0).Put(2, b2)) == Ok(b0 + Zeros(BLOCK_SIZE) + b2)
  {
    var d := Empty.Put(0, b0).Put(2, b2);
    assert d.blocks.Keys == {0, 2};
    Extremes(d.blocks.Keys, 0, 2);
    assert d.Read(0) == b0 && d.Read(1) == Zeros(BLOCK_SIZE) && d.Read(2) == b2;
    assert Span(d, 0, 1) == [] + b0;
    assert Span(d, 0, 2) == [] + b0 + Zeros(BLOCK_SIZE);
    assert Span(d, 0, 3) == Span(d, 0, 2) + b2;
    assert Image(d) == Ok(Span(d, 0, 3));
    assert [] + b0 == b0;
  }

  // ---------------------------------------------------------------- dictionary format


  /** `struct.pack('>I', addr)`, for an address that fits 32 bits. */
  function Pack32(addr: nat): (bs: seq<Byte>)
    requires addr < 0x1_0000_0000
    ensures |bs| == 4 && FromBigEndian(bs) == addr
  {
    assert Pow(256, 2) == 0x1_0000;
    assert Pow(256, 4) == 0x1_0000_0000;
    BigEndian(addr, 4)
  }

  /** One record; `struct.pack` raises StructError above 2^32 - 1. */
  function Record(addr: nat, content: seq<Byte>): (r: Result<seq<Byte>>)
    ensures r.Ok? <==> addr < 0x1_0000_0000
    ensures r.Err? ==> r.error == StructError
  {
    if addr < 0x1_0000_0000 then Ok(Pack32(addr) + content) else Err(StructError)
  }

  /** The records of the keys in `order`, in that order: export_as_dictionary's bytes. */
  function Serialize(order: seq<nat>, blocks: map<nat, seq<Byte>>): (r: Result<seq<Byte>>)
    requires forall a :: a in order ==> a in blocks
    ensures r.Ok? <==> forall a :: a in order ==> a < 0x1_0000_0000
    ensures r.Err? ==> r.error == StructError
  {
    if order == [] then Ok([])
    else
      var init, last := order[..|order| - 1], order[|order| - 1];
      assert forall a :: a in init ==> a in order;
      assert forall a :: a in order ==> a in init || a == last;
      match Serialize(init, blocks)
      case Err(e) => Err(e)
      case Ok(prev) =>
        match Record(last, blocks[last])
        case Err(e) => Err(e)
        case Ok(rec) => Ok(prev + rec)
  }

  function Dictionary(d: Dict): (r: Result<seq<Byte>>)
    requires d.Valid()
    ensures r.Ok? <==> forall a :: a in d.blocks ==> a < 0x1_0000_0000
    ensures r.Err? ==> r.error == StructError
  {
    Serialize(d.order, d.blocks)
  }

  /** The address and content of record k of a stream. */
  function RecordAt(data: seq<Byte>, k: nat): (rec: (nat, seq<Byte>))
    requires (k + 1) * RECORD_SIZE <= |data|
    ensures rec.0 < 0x1_0000_0000 && |rec.1| == BLOCK_SIZE
  {
    var off := k * RECORD_SIZE;
    assert Pow(256, 2) == 0x1_0000;
    assert Pow(256, 4) == 0x1_0000_0000;
    (FromBigEndian(data[off..off + 4]), data[off + 4..off + RECORD_SIZE])
  }

  /** Every whole record at the front of a stream, in order; a trailing partial record is not one. */
  function Records(data: seq<Byte>): (recs: seq<(nat, seq<Byte>)>)
    ensures |recs| == |data| / RECORD_SIZE
    ensures forall k :: 0 <= k < |recs| ==> recs[k].0 < 0x1_0000_0000 && |recs[k].1| == BLOCK_SIZE
    decreases |data|
  {
    if |data| < RECORD_SIZE then [] else [RecordAt(data, 0)] + Records(data[RECORD_SIZE..])
  }

  /** Record k of the parsed stream is the one at byte offset 516 * k. */
  lemma {:induction false} RecordsAt(data: seq<Byte>, k: nat)
    requires (k + 1) * RECORD_SIZE <= |data|
    ensures k < |Records(data)| && Records(data)[k] == RecordAt(data, k)
  {
    if k > 0 {
      var rest := data[RECORD_SIZE..];
      RecordsAt(rest, k - 1);
      var off := (k - 1) * RECORD_SIZE;
      assert rest[off..off + 4] == data[RECORD_SIZE + off..RECORD_SIZE + off + 4];
      assert rest[off + 4..off + RECORD_SIZE] == data[RECORD_SIZE + off + 4..RECORD_SIZE + off + RECORD_SIZE];
    }
  }

  /** The dict after storing each record in turn. */
  function PutAll(d: Dict, recs: seq<(nat, seq<Byte>)>): Dict
    decreases |recs|
  {
    if recs == [] then d else PutAll(d.Put(recs[0].0, recs[0].1), recs[1..])
  }

  /**
   * Storing records keeps the dict well formed, holds exactly the keys it held
   * plus the records' addresses, and keeps the old key order as a prefix.
   */
  lemma {:induction false} PutAllKeys(d: Dict, recs: seq<(nat, seq<Byte>)>)
    ensures d.Valid() ==> PutAll(d, recs).Valid()
    ensures forall a :: a in PutAll(d, recs).blocks <==> a in d.blocks || exists k :: 0 <= k < |recs| && recs[k].0 == a
    ensures |d.order| <= |PutAll(d, recs).order| && PutAll(d, recs).order[..|d.order|] == d.order
    decreases |recs|
  {
    if recs != [] {
      var next := d.Put(recs[0].0, recs[0].1);
      var r := PutAll(next, recs[1..]);
      PutAllKeys(next, recs[1..]);
      assert forall k :: 0 <= k < |recs| - 1 ==> recs[1..][k] == recs[k + 1];
      assert r.order[..|d.order|] == r.order[..|next.order|][..|d.order|];
    }
  }

  /** What is left after k whole records, when less than one record is left, is the length modulo 516. */
  lemma Remainder(n: nat, k: nat)
    requires k * RECORD_SIZE <= n < (k + 1) * RECORD_SIZE
    ensures n % RECORD_SIZE == n - k * RECORD_SIZE && n / RECORD_SIZE == k
  {
  }

  /** Parsing from byte offset i reads one record there, then parses from offset i + 516. */
  lemma ReadRecord(data: seq<Byte>, i: nat)
    requires i + RECORD_SIZE <= |data|
    ensures Records(data[i..])
         == [(FromBigEndian(data[i..i + 4]), data[i + 4..i + RECORD_SIZE])] + Records(data[i + RECORD_SIZE..])
  {
    var rest := data[i..];
    assert rest[RECORD_SIZE..] == data[i + RECORD_SIZE..];
    assert rest[0..4] == data[i..i + 4];
    assert rest[4..RECORD_SIZE] == data[i + 4..i + RECORD_SIZE];
  }

  /** Storing the records from offset i is storing the one at i, then the rest. */
  lemma ImportStep(d: Dict, data: seq<Byte>, i: nat)
    requires i + RECORD_SIZE <= |data|
    ensures PutAll(d, Records(data[i..]))
         == PutAll(d.Put(FromBigEndian(data[i..i + 4]), data[i + 4..i + RECORD_SIZE]), Records(data[i + RECORD_SIZE..]))
  {
    ReadRecord(data, i);
    var recs := Records(data[i..]);
    assert recs[1..] == Records(data[i + RECORD_SIZE..]);
  }

  /** Appending bytes after a record leaves that record as it was. */
  lemma RecordAtPrefix(p: seq<Byte>, q: seq<Byte>, k: nat)
    requires (k + 1) * RECORD_SIZE <= |p|
    ensures RecordAt(p + q, k) == RecordAt(p, k)
  {
    var off := k * RECORD_SIZE;
    assert (p + q)[off..off + 4] == p[off..off + 4];
    assert (p + q)[off + 4..off + RECORD_SIZE] == p[off + 4..off + RECORD_SIZE];
  }

  /** A record appended at a record boundary is read back as written. */
  lemma RecordAtEnd(p: seq<Byte>, n: nat, addr: nat, content: seq<Byte>)
    requires |p| == n * RECORD_SIZE && addr < 0x1_0000_0000 && |content| == BLOCK_SIZE
    ensures (n + 1) * RECORD_SIZE == |p + (Pack32(addr) + content)|
    ensures RecordAt(p + (Pack32(addr) + content), n) == (addr, content)
  {
    var out := p + (Pack32(addr) + content);
    assert out[|p|..|p| + 4] == Pack32(addr);
    assert out[|p| + 4..|p| + RECORD_SIZE] == content;
  }

  /** A serialized key list holds one record per key, read back as key and content. */
  lemma {:induction false} SerializeLayout(order: seq<nat>, blocks: map<nat, seq<Byte>>)
    requires forall a :: a in order ==> a in blocks && a < 0x1_0000_0000 && |blocks[a]| == BLOCK_SIZE
    ensures Serialize(order, blocks).Ok?
    ensures |Serialize(order, blocks).value| == |order| * RECORD_SIZE
    ensures forall k :: 0 <= k < |order| ==> RecordAt(Serialize(order, blocks).value, k) == (order[k], blocks[order[k]])
  {
    if order != [] {
      var init, last := order[..|order| - 1], order[|order| - 1];
      assert forall a :: a in init ==> a in order;
      assert last in order;
      SerializeLayout(init, blocks);
      var prev := Serialize(init, blocks).value;
      var rec := Pack32(last) + blocks[last];
      assert Record(last, blocks[last]) == Ok(rec);
      var out := Serialize(order, blocks).value;
      assert out == prev + rec;
      forall k | 0 <= k < |order|
        ensures RecordAt(out, k) == (order[k], blocks[order[k]])
      {
        if k < |init| {
          RecordAtPrefix(prev, rec, k);
        } else {
          RecordAtEnd(prev, |init|, last, blocks[last]);
        }
      }
    }
  }

  /** The entries of a dict as records, in key order. */
  function Entries(d: Dict): (recs: seq<(nat, seq<Byte>)>)
    requires d.Valid()
    ensures |recs| == |d.order|
    ensures forall k :: 0 <= k < |recs| ==> recs[k] == (d.order[k], d.blocks[d.order[k]])
  {
    seq(|d.order|, k requires 0 <= k < |d.order| => (d.order[k], d.blocks[d.order[k]]))
  }

  /** A dict holding exactly the keys `keys`, in that order, each with its content in `blocks`. */
  ghost predicate Holds(r: Dict, keys: seq<nat>, blocks: map<nat, seq<Byte>>) {
    && r.order == keys
    && (forall a :: a in r.blocks <==> a in keys)
    && forall a :: a in r.blocks ==> a in blocks && r.blocks[a] == blocks[a]
  }

  /** Storing a key not yet held appends it. */
  lemma PutStep(prev: Dict, keys: seq<nat>, blocks: map<nat, seq<Byte>>, a: nat)
    requires Holds(prev, keys, blocks) && a !in keys && a in blocks
    ensures Holds(prev.Put(a, blocks[a]), keys + [a], blocks)
  {
  }

  /**
   * Storing records with distinct keys, each with its content in `blocks`,
   * into a dict holding other keys appends those keys in order.
   */
  lemma {:induction false} PutAllDistinct(prev: Dict, done: seq<nat>, recs: seq<(nat, seq<Byte>)>,
                                          keys: seq<nat>, blocks: map<nat, seq<Byte>>)
    requires Holds(prev, done, blocks) && NoDuplicates(done + keys) && |recs| == |keys|
    requires forall k :: 0 <= k < |keys| ==> keys[k] in blocks && recs[k] == (keys[k], blocks[keys[k]])
    ensures Holds(PutAll(prev, recs), done + keys, blocks)
    decreases |recs|
  {
    if recs == [] {
      assert done + keys == done;
    } else {
      var a := keys[0];
      assert (done + keys)[|done|] == a;
      assert forall i :: 0 <= i < |done| ==> (done + keys)[i] == done[i];
      assert a !in done;
      PutStep(prev, done, blocks, a);
      assert done + [a] + keys[1..] == done + keys;
      PutAllDistinct(prev.Put(a, blocks[a]), done + [a], recs[1..], keys[1..], blocks);
    }
  }

  /**
   * Exporting a store whose addresses fit 32 bits and whose blocks are 512
   * bytes, then importing the stream into an empty store, gives back the same
   * address-to-content mapping in the same key order, with no partial record.
   */
  lemma DictionaryRoundTrip(d: Dict)
    requires d.Valid()
    requires forall a :: a in d.blocks ==> a < 0x1_0000_0000 && |d.blocks[a]| == BLOCK_SIZE
    ensures Dictionary(d).Ok?
    ensures |Dictionary(d).value| % RECORD_SIZE == 0
    ensures PutAll(Empty, Records(Dictionary(d).value)) == d
  {
    SerializeLayout(d.order, d.blocks);
    var data := Dictionary(d).value;
    Remainder(|data|, |d.order|);
    RecordsOfDictionary(d);
    EntriesRebuild(d);
  }

  /** Storing a dict's entries, in its key order, into an empty dict rebuilds it. */
  lemma EntriesRebuild(d: Dict)
    requires d.Valid()
    ensures PutAll(Empty, Entries(d)) == d
  {
    assert [] + d.order == d.order;
    PutAllDistinct(Empty, [], Entries(d), d.order, d.blocks);
    HoldsAll(PutAll(Empty, Entries(d)), d);
  }

  /** A dict holding exactly the keys of a dict, in its order and with its contents, is that dict. */
  lemma HoldsAll(r: Dict, d: Dict)
    requires d.Valid() && Holds(r, d.order, d.blocks)
    ensures r == d
  {
    assert r.blocks.Keys == d.blocks.Keys;
    assert r.blocks == d.blocks;
  }

  /** Parsing the export of a store gives its entries in key order. */
  lemma RecordsOfDictionary(d: Dict)
    requires d.Valid()
    requires forall a :: a in d.blocks ==> a < 0x1_0000_0000 && |d.blocks[a]| == BLOCK_SIZE
    ensures Dictionary(d).Ok? && Records(Dictionary(d).value) == Entries(d)
  {
    SerializeLayout(d.order, d.blocks);
    var data := Dictionary(d).value;
    Remainder(|data|, |d.order|);
    forall k | 0 <= k < |d.order|
      ensures Records(data)[k] == Entries(d)[k]
    {
      RecordsAt(data, k);
    }
  }

  // ---------------------------------------------------------------- the card's store

  /** The card's block store, updated in place by writes and imports. */
  class SdModel {
    var disk: Dict

    ghost predicate Valid()
      reads this
    {
      disk.Valid()
    }

    /** A fresh card holds no blocks. */
    constructor ()
      ensures Valid() && disk == Empty
    {
      disk := Empty;
    }

    /** write_block: store `content` at `addr`, replacing what was there. */
    method WriteBlock(addr: nat, content: seq<Byte>)
      requires Valid()
      modifies this
      ensures Valid() && disk == old(disk).Put(addr, content)
    {
      disk := disk.Put(addr, content);
    }

    /** read_block: the stored block, or 512 zero bytes for an address never written. */
    method ReadBlock(addr: nat) returns (block: seq<Byte>)
      ensures block == disk.Read(addr)
      ensures addr !in disk.blocks ==> |block| == BLOCK_SIZE && forall i :: 0 <= i < BLOCK_SIZE ==> block[i] == 0
    {
      block := Zeros(BLOCK_SIZE);
      if addr in disk.blocks {
        block := disk.blocks[addr];
      }
    }

    /** get_block_count: the number of addresses ever written. */
    method BlockCount() returns (n: nat)
      requires Valid()
      ensures n == |disk.blocks|
    {
      OrderCount(disk);
      n := |disk.order|;
    }

    /** get_block_list: every written address once, in the order first written. */
    method BlockList() returns (list: seq<nat>)
      requires Valid()
      ensures list == disk.order
      ensures NoDuplicates(list) && |list| == |disk.blocks|
      ensures forall a :: a in list <==> a in disk.blocks
    {
      list := [];
      var i := 0;
      while i < |disk.order|
        invariant 0 <= i <= |disk.order|
        invariant list == disk.order[..i]
      {
        list := list + [disk.order[i]];
        i := i + 1;
      }
      OrderCount(disk);
    }

    /**
     * export_to_file's bytes: every block from the smallest to the largest
     * written address, zero-filled where nothing was written.
     */
    method ExportImage() returns (r: Result<seq<Byte>>)
      requires Valid()
      ensures r == Image(disk)
    {
      var list := BlockList();
      if |list| == 0 {
        return Err(IndexError);
      }
      var first, last := Bounds(list);
      Extremes(disk.blocks.Keys, first, last);
      var image := Blocks(first, last);
      return Ok(image);
    }

    /** The blocks first .. last, each as read_block returns it, one after the other. */
    method Blocks(first: nat, last: nat) returns (image: seq<Byte>)
      requires first <= last
      ensures image == Span(disk, first, last - first + 1)
    {
      image := [];
      var i := first;
      while i <= last
        invariant first <= i <= last + 1
        invariant image == Span(disk, first, i - first)
      {
        var block := ReadBlock(i);
        image := image + block;
        i := i + 1;
      }
    }

    /** export_as_dictionary's bytes: one record per written address, in the order first written. */
    method ExportDictionary() returns (r: Result<seq<Byte>>)
      requires Valid()
      ensures r == Dictionary(disk)
      ensures r.Ok? <==> forall a :: a in disk.blocks ==> a < 0x1_0000_0000
    {
      var out := [];
      var i := 0;
      while i < |disk.order|
        invariant 0 <= i <= |disk.order|
        invariant forall a :: a in disk.order[..i] ==> a in disk.blocks
        invariant Serialize(disk.order[..i], disk.blocks) == Ok(out)
      {
        var addr := disk.order[i];
        assert disk.order[..i + 1][..i] == disk.order[..i];
        if addr >= 0x1_0000_0000 {
          assert addr in disk.order;
          return Err(StructError);
        }
        assert Record(addr, disk.blocks[addr]) == Ok(Pack32(addr) + disk.blocks[addr]);
        out := out + (Pack32(addr) + disk.blocks[addr]);
        i := i + 1;
      }
      assert disk.order[..i] == disk.order;
      return Ok(out);
    }

    /**
     * import_from_dictionary, over the bytes of the file: store every whole
     * record in turn; a trailing partial record is reported as corrupt.
     */
    method ImportDictionary(data: seq<Byte>) returns (r: Result<()>)
      requires Valid()
      modifies this
      ensures Valid() && disk == PutAll(old(disk), Records(data))
      ensures r.Ok? <==> |data| % RECORD_SIZE == 0
      ensures r.Err? ==> r.error == CorruptDictionary
    {
      var i := 0;
      ghost var k := 0;
      assert data[i..] == data;
      while |data| - i >= RECORD_SIZE
        invariant 0 <= i <= |data| && i == k * RECORD_SIZE
        invariant Valid()
        invariant PutAll(disk, Records(data[i..])) == PutAll(old(disk), Records(data))
      {
        var addr := FromBigEndian(data[i..i + 4]);
        var content := data[i + 4..i + RECORD_SIZE];
        ImportStep(disk, data, i);
        disk := disk.Put(addr, content);
        i, k := i + RECORD_SIZE, k + 1;
      }
      assert Records(data[i..]) == [];
      Remainder(|data|, k);
      if i < |data| {
        r := Err(CorruptDictionary);
      } else {
        r := Ok(());
      }
    }
  }
}
