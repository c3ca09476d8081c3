/** The bounded DER reader of verify.py: low tags, minimal definite lengths (sections 8.1.3 and 10.1 of X.690). */
module Der {
  import opened Bytes

  const TAG_INTEGER: byte := 0x02

  /** A length the reader can take: at most four length bytes. */
  type Value = v: bytes | |v| < 0x1_0000_0000

  datatype Element = Element(tag: byte, value: Value)

  /** `tag & 0x1F == 0x1F` announces a tag number in further bytes. */
  predicate LowTag(tag: byte) {
    tag % 32 != 31
  }

  predicate WellFormed(elements: seq<Element>) {
    forall i :: 0 <= i < |elements| ==> LowTag(elements[i].tag)
  }

  // ---------- printing ----------

  /** The shortest big-endian spelling of a positive number. */
  function Minimal(n: nat): (s: bytes)
    requires n > 0
    ensures s != [] && s[0] != 0 && BE(s) == n
  {
    if n < 256 then
      assert [n][..0] == [];
      [n]
    else
      var s := Minimal(n / 256) + [n % 256];
      assert s[..|s| - 1] == Minimal(n / 256);
      s
  }

  lemma {:induction false} MinimalLength(n: nat, k: nat)
    requires 0 < n < Pow256(k)
    ensures |Minimal(n)| <= k
  {
    if n >= 256 {
      assert Pow256(0) == 1 && Pow256(1) == 256;
      MinimalLength(n / 256, k - 1);
    }
  }

  lemma {:induction false} MinimalUnique(s: bytes)
    requires s != [] && s[0] != 0
    ensures BE(s) > 0 && Minimal(BE(s)) == s
  {
    var front, last := s[..|s| - 1], s[|s| - 1];
    if |s| == 1 {
      assert BE(front) == 0;
    } else {
      MinimalUnique(front);
      assert BE(s) / 256 == BE(front) && BE(s) % 256 == last;
      assert s == front + [last];
    }
  }

  /** The length octets: short form below 128, else a count and the shortest spelling. */
  function PrintLength(n: nat): (s: bytes)
    requires n < 0x1_0000_0000
    ensures 1 <= |s| <= 5
  {
    if n < 128 then [n] else
      MinimalLength(n, 4);
      [0x80 + |Minimal(n)|] + Minimal(n)
  }

  /** The length octets of section 8.1.3 of X.690 with the restrictions of section 10.1, spelled out. */
  lemma LengthOctets(n: nat)
    requires n < 0x1_0000_0000
    ensures n < 128 ==> PrintLength(n) == [n]
    ensures 128 <= n < 0x100 ==> PrintLength(n) == [0x81, n]
    ensures 0x100 <= n < 0x1_0000 ==> PrintLength(n) == [0x82] + U16(n)
    ensures 0x1_0000 <= n < 0x100_0000 ==> PrintLength(n) == [0x83] + U24(n)
    ensures n >= 0x100_0000 ==> PrintLength(n) == [0x84] + ToBE(n, 4)
  {
    hide Minimal, ToBE;
    SmallConstants();
    if 128 <= n < 0x100 {
      MinimalIs(n, 1);
    } else if 0x100 <= n < 0x1_0000 {
      MinimalIs(n, 2);
      TwoBytes(n);
    } else if 0x1_0000 <= n < 0x100_0000 {
      MinimalIs(n, 3);
      ThreeBytes(n);
    } else if n >= 0x100_0000 {
      MinimalIs(n, 4);
    }
  }

  lemma MinimalIs(n: nat, k: nat)
    requires 1 <= k <= 4 && n < Pow256(k) && n >= (if k == 1 then 1 else Pow256(k - 1))
    ensures Minimal(n) == ToBE(n, k)
  {
    var digits := Minimal(n);
    hide Minimal, ToBE, BE;
    MinimalLength(n, k);
    ToBEInverse(digits);
    assert n < Pow256(|digits|);
  }

  function PrintElement(e: Element): bytes {
    [e.tag] + (PrintLength(|e.value|) + e.value)
  }

  function Print(elements: seq<Element>): bytes {
    if elements == [] then [] else PrintElement(elements[0]) + Print(elements[1..])
  }

  // ---------- decoding ----------

  /** The length octets at the front of `s`, and what follows. */
  function TakeLength(s: bytes): Option<(nat, bytes)> {
    if s == [] then None
    else if s[0] < 128 then Some((s[0] as nat, s[1..]))
    else
      var count: nat := s[0] - 128;
      if count == 0 || count > 4 || |s| < 1 + count then None
      else
        var digits := s[1..][..count];
        if digits[0] == 0 || BE(digits) < 128 then None else Some((BE(digits), s[1..][count..]))
  }

  function TakeElement(s: bytes): Option<(Element, bytes)> {
    if s == [] || !LowTag(s[0]) then None
    else
      var (size, rest) :- TakeLength(s[1..]);
      TakeLengthSound(s[1..]);
      if |rest| < size then None else Some((Element(s[0], rest[..size]), rest[size..]))
  }

  function Decode(s: bytes): (r: Option<seq<Element>>)
    decreases |s|
  {
    if s == [] then Some([]) else
      var (e, rest) :- TakeElement(s);
      TakeElementSound(s);
      After([e], Decode(rest))
  }

  function After(done: seq<Element>, rest: Option<seq<Element>>): (r: Option<seq<Element>>)
    ensures r.None? <==> rest.None?
  {
    match rest
    case None => None
    case Some(elements) => Some(done + elements)
  }

  lemma AfterAppend(a: seq<Element>, b: seq<Element>, rest: Option<seq<Element>>)
    ensures After(a, After(b, rest)) == After(a + b, rest)
  {
    if rest.Some? {
      Assoc(a, b, rest.value);
    }
  }

  // ---------- exactness ----------

  lemma TakeLengthSound(s: bytes)
    requires TakeLength(s).Some?
    ensures var (n, rest) := TakeLength(s).value;
            n < 0x1_0000_0000 && s == PrintLength(n) + rest && |rest| < |s|
  {
    hide BE, Minimal;
    var (n, rest) := TakeLength(s).value;
    assert Pow256(1) <= 0x1_0000_0000 && Pow256(2) <= 0x1_0000_0000 && Pow256(3) <= 0x1_0000_0000;
    HeadTail(s);
    if s[0] >= 128 {
      var digits := s[1..][..s[0] - 128];
      MinimalUnique(digits);
      assert s[1..] == digits + rest;
      Assoc([s[0]], digits, rest);
    }
  }

  lemma TakeLengthPrinted(n: nat, rest: bytes)
    requires n < 0x1_0000_0000
    ensures TakeLength(PrintLength(n) + rest) == Some((n, rest))
  {
    hide BE, Minimal;
    if n >= 128 {
      var m := Minimal(n);
      MinimalLength(n, 4);
      Assoc([0x80 + |m|], m, rest);
      var s := PrintLength(n) + rest;
      assert s[0] == 0x80 + |m| && s[1..] == m + rest;
      assert (m + rest)[..|m|] == m && (m + rest)[|m|..] == rest;
    } else {
      assert ([n] + rest)[1..] == rest;
    }
  }

  lemma TakeElementSound(s: bytes)
    requires TakeElement(s).Some?
    ensures var (e, rest) := TakeElement(s).value;
            LowTag(e.tag) && s == PrintElement(e) + rest && |rest| < |s|
  {
    hide TakeLength, PrintLength;
    var (e, rest) := TakeElement(s).value;
    var (size, t) := TakeLength(s[1..]).value;
    TakeLengthSound(s[1..]);
    HeadTail(s);
    Assoc(PrintLength(size), e.value, rest);
    Assoc([e.tag], PrintLength(size) + e.value, rest);
  }

  lemma TakeElementPrinted(e: Element, rest: bytes)
    requires LowTag(e.tag)
    ensures TakeElement(PrintElement(e) + rest) == Some((e, rest))
  {
    hide TakeLength, PrintLength;
    var length := PrintLength(|e.value|);
    Assoc([e.tag], length + e.value, rest);
    Assoc(length, e.value, rest);
    var s := PrintElement(e) + rest;
    assert s[0] == e.tag && s[1..] == length + (e.value + rest);
    TakeLengthPrinted(|e.value|, e.value + rest);
    assert (e.value + rest)[..|e.value|] == e.value && (e.value + rest)[|e.value|..] == rest;
  }

  lemma {:induction false} DecodeSound(s: bytes)
    requires Decode(s).Some?
    ensures WellFormed(Decode(s).value) && s == Print(Decode(s).value)
    decreases |s|
  {
    hide TakeElement, PrintElement;
    if s != [] {
      var (e, rest) := TakeElement(s).value;
      TakeElementSound(s);
      DecodeSound(rest);
      assert ([e] + Decode(rest).value)[1..] == Decode(rest).value;
    }
  }

  lemma DecodeStep(e: Element, rest: bytes)
    requires LowTag(e.tag)
    ensures Decode(PrintElement(e) + rest) == After([e], Decode(rest))
  {
    TakeElementPrinted(e, rest);
    hide TakeElement;
  }

  lemma {:induction false} DecodePrinted(elements: seq<Element>, rest: bytes)
    requires WellFormed(elements)
    ensures Decode(Print(elements) + rest) == After(elements, Decode(rest))
  {
    hide PrintElement, TakeElement;
    if elements == [] {
      AppendNothing(rest);
      assert Print(elements) + rest == rest;
      if Decode(rest).Some? {
        AppendNothing(Decode(rest).value);
      }
    } else {
      hide Decode;
      var e, tail := elements[0], elements[1..];
      Assoc(PrintElement(e), Print(tail), rest);
      DecodeStep(e, Print(tail) + rest);
      DecodePrinted(tail, rest);
      AfterAppend([e], tail, Decode(rest));
      HeadTail(elements);
      assert Decode(Print(elements) + rest) == After(elements, Decode(rest));
    }
  }

  /** The reader accepts exactly the concatenations of low-tag elements with minimal lengths. */
  lemma AcceptsExactlyPrintedElements(s: bytes, elements: seq<Element>)
    ensures Decode(s) == Some(elements) <==> WellFormed(elements) && s == Print(elements)
  {
    hide Decode, Print;
    if Decode(s) == Some(elements) {
      DecodeSound(s);
    }
    if WellFormed(elements) && s == Print(elements) {
      DecodePrinted(elements, []);
      AppendNothing(s);
      DecodeNothing();
      AppendNothing(elements);
    }
  }

  lemma DecodeNothing()
    ensures Decode([]) == Some([])
  {
  }

  /** After an accepted prefix, decoding goes on as if the prefix had not been there. */
  lemma DecodeDistributes(a: bytes, b: bytes)
    requires Decode(a).Some?
    ensures Decode(a + b) == After(Decode(a).value, Decode(b))
  {
    hide Decode, Print;
    DecodeSound(a);
    DecodePrinted(Decode(a).value, b);
  }

  // ---------- the program ----------

  lemma LengthByIndex(encoded: bytes, p: nat, count: nat)
    requires p + 1 + count <= |encoded| && encoded[p] == 0x80 + count && 1 <= count <= 4
    ensures TakeLength(encoded[p..]) ==
            var digits := encoded[p + 1..p + 1 + count];
            if digits[0] == 0 || BE(digits) < 128 then None else Some((BE(digits), encoded[p + 1 + count..]))
  {
    hide BE;
    assert encoded[p..][1..][..count] == encoded[p + 1..p + 1 + count];
    assert encoded[p..][1..][count..] == encoded[p + 1 + count..];
  }

  /** The length octets at position `p` and where the value starts. */
  method ReadLength(encoded: bytes, p: nat) returns (r: Option<(nat, nat)>)
    requires p < |encoded|
    ensures r.None? ==> TakeLength(encoded[p..]).None?
    ensures r.Some? ==> p < r.value.1 <= |encoded|
                        && TakeLength(encoded[p..]) == Some((r.value.0, encoded[r.value.1..]))
  {
    hide BE;
    var length: nat := encoded[p];
    var position := p + 1;
    assert encoded[p..][1..] == encoded[p + 1..];
    if length >= 0x80 {
      var count := length % 0x80;
      if count == 0 || count > 4 || |encoded| - position < count {
        return None;
      }
      LengthByIndex(encoded, p, count);
      var lengthBytes := encoded[position..position + count];
      position := position + count;
      length := BE(lengthBytes);
      if lengthBytes[0] == 0 || length < 128 {
        return None;
      }
    }
    return Some((length, position));
  }

  /** One turn of the loop: the element at position `p` and where the next one starts. */
  method ReadElement(encoded: bytes, p: nat) returns (r: Option<(Element, nat)>)
    requires p < |encoded|
    ensures r.None? ==> Decode(encoded[p..]).None?
    ensures r.Some? ==> p < r.value.1 <= |encoded|
                        && Decode(encoded[p..]) == After([r.value.0], Decode(encoded[r.value.1..]))
  {
    hide TakeLength;
    assert encoded[p..][1..] == encoded[p + 1..];
    if |encoded| - p < 2 {
      assert TakeLength([]) == None by {
        TakeLengthOfNothing();
      }
      return None;
    }
    var tag := encoded[p];
    if tag % 32 == 31 {
      return None;
    }
    var length :- ReadLength(encoded, p + 1);
    var (size, position) := length;
    TakeLengthSound(encoded[p + 1..]);
    if size > |encoded| - position {
      return None;
    }
    assert encoded[position..][..size] == encoded[position..position + size];
    assert encoded[position..][size..] == encoded[position + size..];
    return Some((Element(tag, encoded[position..position + size]), position + size));
  }

  lemma TakeLengthOfNothing()
    ensures TakeLength([]) == None
  {
  }

  /** `_der_elements`. */
  method DerElements(encoded: bytes) returns (r: Option<seq<Element>>)
    ensures r == Decode(encoded)
  {
    var elements: seq<Element> := [];
    var position := 0;
    assert encoded[0..] == encoded;
    ghost var whole := Decode(encoded);
    if whole.Some? {
      AppendNothing(whole.value);
    }
    while position < |encoded|
      invariant 0 <= position <= |encoded|
      invariant whole == After(elements, Decode(encoded[position..]))
    {
      var step :- ReadElement(encoded, position);
      AfterAppend(elements, [step.0], Decode(encoded[step.1..]));
      elements := elements + [step.0];
      position := step.1;
    }
    AppendNothing(elements);
    return Some(elements);
  }

  // ---------- single elements and integers ----------

  /** `_der_single`: the value of the one element of the expected tag. */
  function Single(encoded: bytes, tag: byte): Option<bytes> {
    match Decode(encoded)
    case None => None
    case Some(elements) => if |elements| == 1 && elements[0].tag == tag then Some(elements[0].value) else None
  }

  lemma SingleExact(encoded: bytes, tag: byte, value: bytes)
    requires LowTag(tag)
    ensures Single(encoded, tag) == Some(value)
            <==> |value| < 0x1_0000_0000 && encoded == PrintElement(Element(tag, value))
  {
    hide Decode, PrintElement;
    if Single(encoded, tag) == Some(value) {
      AcceptsExactlyPrintedElements(encoded, Decode(encoded).value);
      assert Decode(encoded).value == [Element(tag, value)];
      PrintOne(Element(tag, value));
    }
    if |value| < 0x1_0000_0000 && encoded == PrintElement(Element(tag, value)) {
      PrintOne(Element(tag, value));
      AcceptsExactlyPrintedElements(encoded, [Element(tag, value)]);
    }
  }

  lemma PrintOne(e: Element)
    ensures Print([e]) == PrintElement(e)
  {
    hide PrintElement;
    AppendNothing(PrintElement(e));
    assert [e][1..] == [];
  }

  /** `_der_nonnegative_integer`. */
  function NonnegativeInteger(encoded: bytes): Option<nat> {
    var value :- Single(encoded, TAG_INTEGER);
    if value == [] || |value| > 4 || value[0] >= 0x80 || (|value| > 1 && value[0] == 0 && value[1] < 0x80)
    then None else Some(BE(value))
  }

  /** The shortest two's-complement spelling of a nonnegative integer. */
  function IntegerBytes(n: nat): (s: bytes)
    requires n < 0x8000_0000
    ensures 1 <= |s| <= 5
  {
    if n > 0 then MinimalLength(n, 4); if Minimal(n)[0] >= 0x80 then [0] + Minimal(n) else Minimal(n)
    else [0]
  }

  lemma ZeroHead(s: bytes)
    ensures BE([0] + s) == BE(s)
    decreases |s|
  {
    if s == [] {
      assert ([0] + s)[..0] == [] && BE([]) == 0;
    } else {
      var front := s[..|s| - 1];
      ZeroHead(front);
      assert ([0] + s)[..|s|] == [0] + front;
    }
  }

  /** A bijection between minimal INTEGER elements and 0 .. 2^31 - 1. */
  lemma IntegerExact(encoded: bytes, n: nat)
    ensures NonnegativeInteger(encoded) == Some(n)
            <==> n < 0x8000_0000 && encoded == PrintElement(Element(TAG_INTEGER, IntegerBytes(n)))
  {
    hide Single, PrintElement, BE, Minimal;
    if NonnegativeInteger(encoded) == Some(n) {
      var value := Single(encoded, TAG_INTEGER).value;
      SingleExact(encoded, TAG_INTEGER, value);
      IntegerValue(value);
    }
    if n < 0x8000_0000 {
      IntegerBytesValid(n);
      if encoded == PrintElement(Element(TAG_INTEGER, IntegerBytes(n))) {
        SingleExact(encoded, TAG_INTEGER, IntegerBytes(n));
      }
    }
  }

  predicate MinimalInteger(value: bytes) {
    value != [] && |value| <= 4 && value[0] < 0x80 && !(|value| > 1 && value[0] == 0 && value[1] < 0x80)
  }

  lemma IntegerValue(value: bytes)
    requires MinimalInteger(value)
    ensures BE(value) < 0x8000_0000 && value == IntegerBytes(BE(value))
  {
    hide BE, Minimal;
    BEHead(value);
    SmallPowers();
    if value[0] != 0 {
      MinimalUnique(value);
    } else if |value| > 1 {
      var tail := value[1..];
      HeadTail(value);
      ZeroHead(tail);
      MinimalUnique(tail);
    } else {
      assert value == [0];
      assert BE([0]) == 0 by {
        ZeroHead([]);
        AppendNothing([0 as byte]);
        BENothing();
      }
    }
  }

  lemma BENothing()
    ensures BE([]) == 0
  {
  }

  lemma SmallPowers()
    ensures Pow256(0) == 1 && Pow256(1) == 0x100 && Pow256(2) == 0x1_0000 && Pow256(3) == 0x100_0000
  {
  }

  lemma IntegerBytesValid(n: nat)
    requires n < 0x8000_0000
    ensures MinimalInteger(IntegerBytes(n)) && BE(IntegerBytes(n)) == n
  {
    hide BE;
    if n == 0 {
      ZeroHead([]);
      AppendNothing([0 as byte]);
      BENothing();
    } else {
      var m := Minimal(n);
      hide Minimal;
      MinimalLength(n, 4);
      BEHead(m);
      SmallPowers();
      ZeroHead(m);
    }
  }
}
