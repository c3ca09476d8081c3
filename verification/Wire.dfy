/** The presentation language of section 3 of RFC 8446: integers and length-prefixed vectors,
    with their printers, and the cursor class that the parsers advance. */
module Wire {
  import opened Bytes

  type vec16 = d: bytes | |d| < 0x1_0000

  /** A two-byte code followed by a vector with a two-byte length: an extension or a key share. */
  datatype Item = Item(kind: u16, data: vec16)

  // ---------- printers ----------

  function Vector(width: nat, data: bytes): (s: bytes)
    requires |data| < Pow256(width)
    ensures |s| == width + |data|
  {
    ToBE(|data|, width) + data
  }

  function PrintU16s(values: seq<u16>): (s: bytes)
    ensures |s| == 2 * |values|
  {
    if values == [] then [] else ToBE(values[0], 2) + PrintU16s(values[1..])
  }

  function PrintItem(item: Item): (s: bytes)
    ensures |s| == 4 + |item.data|
  {
    ToBE(item.kind, 2) + Vector(2, item.data)
  }

  function PrintItems(items: seq<Item>): bytes {
    if items == [] then [] else PrintItem(items[0]) + PrintItems(items[1..])
  }

  // ---------- decoders: each consumes a prefix and returns what is left ----------

  function Take(s: bytes, size: int): (r: Option<(bytes, bytes)>)
    ensures r.Some? <==> 0 <= size <= |s|
    ensures r.Some? ==> |r.value.0| == size && s == r.value.0 + r.value.1
  {
    if size < 0 || |s| < size then None else Some((s[..size], s[size..]))
  }

  function TakeUint(s: bytes, width: nat): (r: Option<(nat, bytes)>)
    ensures r.Some? <==> |s| >= width
    ensures r.Some? ==> r.value.0 < Pow256(width) && s == ToBE(r.value.0, width) + r.value.1
  {
    hide BE, ToBE, Pow256;
    if |s| < width then None else
      ToBEInverse(s[..width]);
      Some((BE(s[..width]), s[width..]))
  }

  function TakeVector(s: bytes, width: nat): (r: Option<(bytes, bytes)>)
    ensures r.Some? ==> |r.value.0| < Pow256(width) && s == Vector(width, r.value.0) + r.value.1
  {
    hide TakeUint, Take, BE, ToBE, Pow256;
    var (size, t) :- TakeUint(s, width);
    var (data, rest) :- Take(t, size);
    Assoc(ToBE(size, width), data, rest);
    Some((data, rest))
  }

  function DecodeU16s(s: bytes): (values: seq<u16>)
    requires |s| % 2 == 0
    ensures PrintU16s(values) == s
  {
    hide BE, ToBE;
    if s == [] then [] else
      ToBEInverse(s[..2]);
      [BE(s[..2])] + DecodeU16s(s[2..])
  }

  function DecodeItems(s: bytes): (r: Option<seq<Item>>)
    ensures r.Some? ==> PrintItems(r.value) == s
    decreases |s|
  {
    if s == [] then Some([]) else
      var (kind, s1) :- TakeUint(s, 2);
      var (data, s2) :- TakeVector(s1, 2);
      After([Item(kind, data)], DecodeItems(s2))
  }

  /** What a list decodes to once its first items have been read. */
  function After(done: seq<Item>, rest: Option<seq<Item>>): (r: Option<seq<Item>>)
    ensures r.None? <==> rest.None?
  {
    match rest
    case None => None
    case Some(items) => Some(done + items)
  }

  lemma AfterNothing(items: Option<seq<Item>>)
    ensures After([], items) == items
  {
    if items.Some? {
      AppendNothing(items.value);
    }
  }

  lemma AfterAll(done: seq<Item>)
    ensures After(done, Some([])) == Some(done)
  {
    AppendNothing(done);
  }

  lemma AfterOne(done: seq<Item>, item: Item, rest: Option<seq<Item>>)
    ensures After(done, After([item], rest)) == After(done + [item], rest)
  {
    if rest.Some? {
      Assoc(done, [item], rest.value);
    }
  }

  // ---------- decoding what was printed ----------

  lemma TakePrinted(a: bytes, rest: bytes)
    ensures Take(a + rest, |a|) == Some((a, rest))
  {
  }

  lemma TakeAll(s: bytes)
    ensures Take(s, |s|) == Some((s, []))
  {
    assert s[..|s|] == s && s[|s|..] == [];
  }

  lemma TakeUintPrinted(n: nat, width: nat, rest: bytes)
    requires n < Pow256(width)
    ensures TakeUint(ToBE(n, width) + rest, width) == Some((n, rest))
  {
    assert (ToBE(n, width) + rest)[..width] == ToBE(n, width);
  }

  lemma TakeVectorPrinted(width: nat, data: bytes, rest: bytes)
    requires |data| < Pow256(width)
    ensures TakeVector(Vector(width, data) + rest, width) == Some((data, rest))
  {
    var prefix := ToBE(|data|, width);
    Assoc(prefix, data, rest);
    TakeUintPrinted(|data|, width, data + rest);
    TakePrinted(data, rest);
  }

  lemma {:induction false} DecodeU16sPrinted(values: seq<u16>)
    ensures DecodeU16s(PrintU16s(values)) == values
  {
    if values == [] {
    } else {
      var s := PrintU16s(values);
      assert s[..2] == ToBE(values[0], 2) && s[2..] == PrintU16s(values[1..]);
      DecodeU16sPrinted(values[1..]);
    }
  }

  lemma {:induction false} DecodeItemsPrinted(items: seq<Item>)
    ensures DecodeItems(PrintItems(items)) == Some(items)
  {
    if items == [] {
    } else {
      var rest := PrintItems(items[1..]);
      var kind, data := ToBE(items[0].kind, 2), Vector(2, items[0].data);
      Assoc(kind, data, rest);
      TakeUintPrinted(items[0].kind, 2, data + rest);
      TakeVectorPrinted(2, items[0].data, rest);
      DecodeItemsPrinted(items[1..]);
      HeadTail(items);
    }
  }

  lemma PrintOneItem(item: Item)
    ensures PrintItems([item]) == PrintItem(item)
  {
    AppendNothing(PrintItem(item));
    assert [item][1..] == [];
  }

  lemma {:induction false} PrintItemsSnoc(items: seq<Item>, last: Item)
    ensures PrintItems(items + [last]) == PrintItems(items) + PrintItem(last)
  {
    hide PrintItem;
    if items == [] {
      AppendNothing([last]);
      AppendNothing(PrintItem(last));
      PrintOneItem(last);
    } else {
      PrintItemsSnoc(items[1..], last);
      assert (items + [last])[1..] == items[1..] + [last];
      Assoc(PrintItem(items[0]), PrintItems(items[1..]), PrintItem(last));
    }
  }

  // ---------- extension lists as dictionaries ----------

  predicate Distinct(items: seq<Item>) {
    forall i, j :: 0 <= i < j < |items| ==> items[i].kind != items[j].kind
  }

  /** The dictionary that inserting the items in order builds. */
  function Dict(items: seq<Item>): map<u16, bytes> {
    if items == [] then map[] else
      var last := items[|items| - 1];
      Dict(items[..|items| - 1])[last.kind := last.data]
  }

  lemma {:induction false} DictKeys(items: seq<Item>, kind: u16)
    ensures kind in Dict(items) <==> exists i :: 0 <= i < |items| && items[i].kind == kind
  {
    if items != [] {
      var front, last := items[..|items| - 1], items[|items| - 1];
      DictKeys(front, kind);
      if i :| 0 <= i < |front| && front[i].kind == kind {
        assert items[i].kind == kind;
      }
    }
  }

  lemma {:induction false} DictLookup(items: seq<Item>, i: nat)
    requires Distinct(items) && i < |items|
    ensures items[i].kind in Dict(items) && Dict(items)[items[i].kind] == items[i].data
  {
    var front := items[..|items| - 1];
    if i < |front| {
      assert items[i].kind != items[|front|].kind && front[i] == items[i];
      DictLookup(front, i);
    }
  }

  lemma DictAppend(done: seq<Item>, item: Item)
    requires Distinct(done) && item.kind !in Dict(done)
    ensures Distinct(done + [item]) && Dict(done + [item]) == Dict(done)[item.kind := item.data]
  {
    DictKeys(done, item.kind);
    assert (done + [item])[..|done|] == done;
  }

  /** The dictionary an extension list is read into, or `None` if a type repeats. */
  function DictOf(items: Option<seq<Item>>): Option<map<u16, bytes>> {
    if items.Some? && Distinct(items.value) then Some(Dict(items.value)) else None
  }

  lemma RepeatedKind(done: seq<Item>, item: Item, rest: Option<seq<Item>>)
    requires item.kind in Dict(done)
    ensures DictOf(After(done + [item], rest)) == None
  {
    if rest.Some? {
      DictKeys(done, item.kind);
      var i :| 0 <= i < |done| && done[i].kind == item.kind;
      var all := done + [item] + rest.value;
      assert all[i].kind == all[|done|].kind;
    }
  }

  /** The extension block that must fill `s`: a two-byte total, then distinct extensions. */
  function DecodeExtensions(s: bytes): (r: Option<seq<Item>>)
    ensures r.Some? ==> Distinct(r.value) && |PrintItems(r.value)| < 0x1_0000
                        && s == Vector(2, PrintItems(r.value))
  {
    var (block, rest) :- TakeVector(s, 2);
    if rest != [] then None else
      var items :- DecodeItems(block);
      if Distinct(items) then Some(items) else None
  }

  lemma DecodeExtensionsPrinted(items: seq<Item>)
    requires |PrintItems(items)| < 0x1_0000
    ensures DecodeExtensions(Vector(2, PrintItems(items))) == if Distinct(items) then Some(items) else None
  {
    TakeVectorPrinted(2, PrintItems(items), []);
    AppendNothing(Vector(2, PrintItems(items)));
    DecodeItemsPrinted(items);
  }

  // ---------- the cursor ----------

  class Reader {
    const data: bytes
    var position: nat

    ghost predicate Valid()
      reads this
    {
      position <= |data|
    }

    function Rest(): (rest: bytes)
      requires Valid()
      reads this
      ensures |rest| == |data| - position
    {
      data[position..]
    }

    constructor (data: bytes)
      ensures Valid() && this.data == data && position == 0 && Rest() == data
    {
      this.data := data;
      position := 0;
    }

    predicate Empty()
      requires Valid()
      reads this
    {
      position == |data|
    }

    method Read(size: int) returns (r: Option<bytes>)
      requires Valid()
      modifies this
      ensures Valid()
      ensures match Take(old(Rest()), size)
              case None => r.None? && position == old(position)
              case Some((chunk, rest)) => r == Some(chunk) && Rest() == rest && position == old(position) + size
    {
      if size < 0 || |data| - position < size {
        return None;
      }
      var start := position;
      position := position + size;
      assert data[start..position] == old(Rest())[..size];
      return Some(data[start..position]);
    }

    /** `u8`, `u16` and `u24` are the widths 1, 2 and 3. */
    method Uint(width: nat) returns (r: Option<nat>)
      requires Valid()
      modifies this
      ensures Valid()
      ensures match TakeUint(old(Rest()), width)
              case None => r.None? && position == old(position)
              case Some((n, rest)) => r == Some(n) && Rest() == rest && position == old(position) + width
    {
      var encoded :- Read(width);
      return Some(BE(encoded));
    }
  }

  /** One turn of the item loops: a type, a length and that many bytes. */
  method ReadItem(encoded: Reader) returns (r: Option<Item>)
    requires encoded.Valid() && !encoded.Empty()
    modifies encoded
    ensures encoded.Valid()
    ensures r.None? ==> DecodeItems(old(encoded.Rest())).None?
    ensures r.Some? ==> |encoded.Rest()| < |old(encoded.Rest())|
                        && DecodeItems(old(encoded.Rest())) == After([r.value], DecodeItems(encoded.Rest()))
  {
    var kind :- encoded.Uint(2);
    var size :- encoded.Uint(2);
    var data :- encoded.Read(size);
    return Some(Item(kind, data));
  }

  /** The loop that fills a dictionary from a list of extensions, refusing a repeated type. */
  method ReadItems(encoded: Reader) returns (r: Option<map<u16, bytes>>)
    requires encoded.Valid()
    modifies encoded
    ensures encoded.Valid()
    ensures r == DictOf(DecodeItems(old(encoded.Rest())))
  {
    ghost var whole := DecodeItems(encoded.Rest());
    ghost var done: seq<Item> := [];
    var result: map<u16, bytes> := map[];
    AfterNothing(whole);
    while !encoded.Empty()
      invariant encoded.Valid()
      invariant Distinct(done) && result == Dict(done)
      invariant whole == After(done, DecodeItems(encoded.Rest()))
      decreases |encoded.Rest()|
    {
      var item :- ReadItem(encoded);
      AfterOne(done, item, DecodeItems(encoded.Rest()));
      if item.kind in result {
        RepeatedKind(done, item, DecodeItems(encoded.Rest()));
        return None;
      }
      DictAppend(done, item);
      result := result[item.kind := item.data];
      done := done + [item];
    }
    AfterAll(done);
    return Some(result);
  }

  method ReadExtensions(reader: Reader) returns (r: Option<map<u16, bytes>>)
    requires reader.Valid()
    modifies reader
    ensures reader.Valid()
    ensures r == DictOf(DecodeExtensions(old(reader.Rest())))
    ensures r.Some? ==> reader.Empty()
  {
    var total :- reader.Uint(2);
    if |reader.data| - reader.position != total {
      return None;
    }
    var block := reader.Read(total);  // all that is left, so never truncated
    var encoded := new Reader(block.value);
    r := ReadItems(encoded);
  }
}
