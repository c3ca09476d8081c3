/** The RSASSA-PSS restrictions of a leaf key (verify.py): a fold over the parameter fields, proved to be the
    reading of section 3.1 of RFC 4055 with its defaults, and to accept a closed list of encodings. */
module Pss {
  import opened Bytes
  import opened Der

  const TAG_BIT_STRING: byte := 0x03
  const TAG_NULL: byte := 0x05
  const TAG_OID: byte := 0x06
  const TAG_SEQUENCE: byte := 0x30
  const TAG_VERSION: byte := 0xA0
  const FIELD_HASH: byte := 0xA0
  const FIELD_MGF: byte := 0xA1
  const FIELD_SALT: byte := 0xA2
  const FIELD_TRAILER: byte := 0xA3

  const SHA256_OID: bytes := [0x60, 0x86, 0x48, 0x01, 0x65, 0x03, 0x04, 0x02, 0x01]
  const MGF1_OID: bytes := [0x2a, 0x86, 0x48, 0x86, 0xf7, 0x0d, 0x01, 0x01, 0x08]
  const RSASSA_PSS_OID: bytes := [0x2a, 0x86, 0x48, 0x86, 0xf7, 0x0d, 0x01, 0x01, 0x0a]

  const SALT_LENGTH := 32

  // ---------- the fields, decoded one by one ----------

  predicate IsSha256(fields: seq<Element>) {
    && fields != [] && fields[0] == Element(TAG_OID, SHA256_OID)
    && (|fields| == 1 || (|fields| == 2 && fields[1] == Element(TAG_NULL, [])))
  }

  /** `_sha256_algorithm`; `None` where the reader raises. */
  function Sha256Algorithm(encoded: bytes): Option<bool> {
    var fields :- Decode(encoded);
    Some(IsSha256(fields))
  }

  function HashField(value: bytes): Option<bool> {
    var inner :- Single(value, TAG_SEQUENCE);
    Sha256Algorithm(inner)
  }

  function MgfField(value: bytes): Option<bool> {
    var inner :- Single(value, TAG_SEQUENCE);
    var mgf :- Decode(inner);
    if |mgf| == 2 && mgf[0] == Element(TAG_OID, MGF1_OID) && mgf[1].tag == TAG_SEQUENCE
    then Sha256Algorithm(mgf[1].value) else Some(false)
  }

  // ---------- the fold ----------

  datatype State = State(hashIsSha256: bool, mgf1IsSha256: bool, minimumSalt: nat, previousTag: int)

  const INITIAL := State(false, false, 20, 0x9F)

  function Step(st: State, field: Element): Option<State> {
    if !(FIELD_HASH <= field.tag <= FIELD_TRAILER) || field.tag <= st.previousTag then None
    else if field.tag == FIELD_HASH then
      var hash :- HashField(field.value);
      Some(st.(hashIsSha256 := hash, previousTag := field.tag))
    else if field.tag == FIELD_MGF then
      var mgf :- MgfField(field.value);
      Some(st.(mgf1IsSha256 := mgf, previousTag := field.tag))
    else if field.tag == FIELD_SALT then
      var salt :- NonnegativeInteger(field.value);
      Some(st.(minimumSalt := salt, previousTag := field.tag))
    else
      var trailer :- NonnegativeInteger(field.value);
      if trailer != 1 then None else Some(st.(previousTag := field.tag))
  }

  function Fold(fields: seq<Element>): Option<State> {
    if fields == [] then Some(INITIAL) else
      var st :- Fold(fields[..|fields| - 1]);
      Step(st, fields[|fields| - 1])
  }

  predicate Permits(st: State) {
    st.hashIsSha256 && st.mgf1IsSha256 && st.minimumSalt <= SALT_LENGTH
  }

  predicate FoldPermits(fields: seq<Element>) {
    Fold(fields).Some? && Permits(Fold(fields).value)
  }

  // ---------- the declarative reading ----------

  /** Each field at most once, in the order of the ASN.1 definition. */
  predicate InOrder(fields: seq<Element>) {
    && (forall i :: 0 <= i < |fields| ==> FIELD_HASH <= fields[i].tag <= FIELD_TRAILER)
    && (forall i, j :: 0 <= i < j < |fields| ==> fields[i].tag < fields[j].tag)
  }

  function Lookup(fields: seq<Element>, tag: byte): Option<Value> {
    if fields == [] then None
    else if fields[|fields| - 1].tag == tag then Some(fields[|fields| - 1].value)
    else Lookup(fields[..|fields| - 1], tag)
  }

  /** Whether the hash is SHA-256; the default is SHA-1. */
  function HashOf(fields: seq<Element>): Option<bool> {
    match Lookup(fields, FIELD_HASH) case None => Some(false) case Some(value) => HashField(value)
  }

  /** Whether the mask generation is MGF1 with SHA-256; the default is MGF1 with SHA-1. */
  function MgfOf(fields: seq<Element>): Option<bool> {
    match Lookup(fields, FIELD_MGF) case None => Some(false) case Some(value) => MgfField(value)
  }

  /** The minimum salt length; the default is 20. */
  function SaltOf(fields: seq<Element>): Option<nat> {
    match Lookup(fields, FIELD_SALT) case None => Some(20) case Some(value) => NonnegativeInteger(value)
  }

  /** The trailer field; the default is 1. */
  function TrailerOf(fields: seq<Element>): Option<nat> {
    match Lookup(fields, FIELD_TRAILER) case None => Some(1) case Some(value) => NonnegativeInteger(value)
  }

  predicate Readable(fields: seq<Element>) {
    && InOrder(fields) && HashOf(fields).Some? && MgfOf(fields).Some? && SaltOf(fields).Some?
    && TrailerOf(fields) == Some(1)
  }

  predicate Policy(fields: seq<Element>) {
    && InOrder(fields) && HashOf(fields) == Some(true) && MgfOf(fields) == Some(true)
    && SaltOf(fields).Some? && SaltOf(fields).value <= SALT_LENGTH && TrailerOf(fields) == Some(1)
  }

  lemma {:induction false} LookupAbsent(fields: seq<Element>, tag: byte)
    requires forall i :: 0 <= i < |fields| ==> fields[i].tag != tag
    ensures Lookup(fields, tag) == None
  {
    if fields != [] {
      LookupAbsent(fields[..|fields| - 1], tag);
    }
  }

  lemma InOrderSnoc(fields: seq<Element>)
    requires fields != []
    ensures var front, last := fields[..|fields| - 1], fields[|fields| - 1];
            InOrder(fields) <==> InOrder(front) && FIELD_HASH <= last.tag <= FIELD_TRAILER
                                 && (front == [] || front[|front| - 1].tag < last.tag)
  {
    var front, last := fields[..|fields| - 1], fields[|fields| - 1];
    assert front != [] ==> front[|front| - 1] == fields[|front| - 1];
    if InOrder(front) && FIELD_HASH <= last.tag <= FIELD_TRAILER && (front == [] || front[|front| - 1].tag < last.tag) {
      forall i, j | 0 <= i < j < |fields| ensures fields[i].tag < fields[j].tag {
        assert fields[i] == front[i] && (j < |front| ==> fields[j] == front[j]);
      }
    }
  }

  lemma {:induction false} FoldReads(fields: seq<Element>)
    ensures Fold(fields) ==
            if !Readable(fields) then None
            else Some(State(HashOf(fields).value, MgfOf(fields).value, SaltOf(fields).value,
                            if fields == [] then 0x9F else fields[|fields| - 1].tag))
  {
    hide HashField, MgfField, NonnegativeInteger;
    if fields == [] {
      assert Readable(fields);
    } else {
      var front, last := fields[..|fields| - 1], fields[|fields| - 1];
      FoldReads(front);
      InOrderSnoc(fields);
      if InOrder(fields) {
        LookupAbsent(front, last.tag);
      }
      hide InOrder;
      assert Fold(fields) ==
             if !Readable(fields) then None
             else Some(State(HashOf(fields).value, MgfOf(fields).value, SaltOf(fields).value, last.tag));
    }
  }

  /** The fold over ordered tags and mutable defaults accepts exactly what the declarative reading does. */
  lemma FoldIsPolicy(fields: seq<Element>)
    ensures FoldPermits(fields) <==> Policy(fields)
  {
    hide Fold, Lookup, InOrder;
    FoldReads(fields);
  }

  // ---------- the closed list ----------

  /** A way to spell acceptable parameters: NULL or nothing after each hash identifier, an explicit salt
      or the default, an explicit trailer or the default. */
  datatype Spelling = Spelling(hashNull: bool, mgfNull: bool, salt: Option<nat>, trailer: bool)

  predicate Acceptable(c: Spelling) {
    c.salt.Some? ==> c.salt.value <= SALT_LENGTH
  }

  function Sha256Fields(withNull: bool): seq<Element> {
    if withNull then [Element(TAG_OID, SHA256_OID), Element(TAG_NULL, [])] else [Element(TAG_OID, SHA256_OID)]
  }

  lemma IsSha256Exact(fields: seq<Element>)
    ensures IsSha256(fields) <==> fields == Sha256Fields(false) || fields == Sha256Fields(true)
  {
  }

  lemma PrintSizes(elements: seq<Element>, bound: nat)
    requires |elements| <= 2 && forall i :: 0 <= i < |elements| ==> |elements[i].value| <= bound
    ensures |Print(elements)| <= 2 * bound + 12
  {
    hide PrintLength;
    if elements != [] {
      assert |PrintElement(elements[0])| <= bound + 6;
      if |elements| == 2 {
        assert elements[1..] == [elements[1]];
        PrintOne(elements[1]);
        assert |PrintElement(elements[1])| <= bound + 6;
      } else {
        assert elements[1..] == [];
      }
    }
  }

  /** The DER of a SHA-256 AlgorithmIdentifier's content. */
  function Sha256Content(withNull: bool): (s: Value)
    ensures |s| <= 30
  {
    PrintSizes(Sha256Fields(withNull), 9);
    Print(Sha256Fields(withNull))
  }

  function Wrap(tag: byte, content: bytes): (s: Value)
    requires |content| <= 100
    ensures |s| <= 106
  {
    PrintElement(Element(tag, content))
  }

  function MgfFields(withNull: bool): seq<Element> {
    [Element(TAG_OID, MGF1_OID), Element(TAG_SEQUENCE, Sha256Content(withNull))]
  }

  function MgfContent(withNull: bool): (s: Value)
    ensures |s| <= 100
  {
    PrintSizes(MgfFields(withNull), 30);
    Print(MgfFields(withNull))
  }

  function HashValue(c: Spelling): Value { Wrap(TAG_SEQUENCE, Sha256Content(c.hashNull)) }

  function MgfValue(c: Spelling): Value { Wrap(TAG_SEQUENCE, MgfContent(c.mgfNull)) }

  function SaltFields(salt: Option<nat>): seq<Element>
    requires salt.Some? ==> salt.value <= SALT_LENGTH
  {
    if salt.None? then [] else [Element(FIELD_SALT, Wrap(TAG_INTEGER, IntegerBytes(salt.value)))]
  }

  function TrailerFields(trailer: bool): seq<Element> {
    if trailer then [Element(FIELD_TRAILER, Wrap(TAG_INTEGER, IntegerBytes(1)))] else []
  }

  function FieldsOf(c: Spelling): seq<Element>
    requires Acceptable(c)
  {
    [Element(FIELD_HASH, HashValue(c)), Element(FIELD_MGF, MgfValue(c))] + SaltFields(c.salt) + TrailerFields(c.trailer)
  }

  lemma Sha256AlgorithmExact(encoded: bytes)
    ensures Sha256Algorithm(encoded) == Some(true)
            <==> encoded == Sha256Content(false) || encoded == Sha256Content(true)
  {
    hide Decode, Print, IsSha256;
    AcceptsExactlyPrintedElements(encoded, Sha256Fields(false));
    AcceptsExactlyPrintedElements(encoded, Sha256Fields(true));
    if Decode(encoded).Some? {
      IsSha256Exact(Decode(encoded).value);
    }
    IsSha256Exact(Sha256Fields(false));
    IsSha256Exact(Sha256Fields(true));
  }

  lemma HashFieldExact(value: bytes)
    ensures HashField(value) == Some(true) <==> exists withNull :: value == Wrap(TAG_SEQUENCE, Sha256Content(withNull))
  {
    hide Single, Sha256Algorithm, PrintElement, Print, Sha256Fields;
    if HashField(value) == Some(true) {
      var inner := Single(value, TAG_SEQUENCE).value;
      SingleExact(value, TAG_SEQUENCE, inner);
      Sha256AlgorithmExact(inner);
    }
    if withNull :| value == Wrap(TAG_SEQUENCE, Sha256Content(withNull)) {
      SingleExact(value, TAG_SEQUENCE, Sha256Content(withNull));
      Sha256AlgorithmExact(Sha256Content(withNull));
    }
  }

  lemma MgfFieldExact(value: bytes)
    ensures MgfField(value) == Some(true) <==> exists withNull :: value == Wrap(TAG_SEQUENCE, MgfContent(withNull))
  {
    hide Single, Sha256Algorithm, PrintElement, Print, Sha256Fields, Decode;
    if MgfField(value) == Some(true) {
      var inner := Single(value, TAG_SEQUENCE).value;
      SingleExact(value, TAG_SEQUENCE, inner);
      var mgf := Decode(inner).value;
      AcceptsExactlyPrintedElements(inner, mgf);
      Sha256AlgorithmExact(mgf[1].value);
      var withNull := mgf[1].value == Sha256Content(true);
      assert mgf == MgfFields(withNull);
      assert value == Wrap(TAG_SEQUENCE, MgfContent(withNull));
    }
    if withNull :| value == Wrap(TAG_SEQUENCE, MgfContent(withNull)) {
      SingleExact(value, TAG_SEQUENCE, MgfContent(withNull));
      AcceptsExactlyPrintedElements(MgfContent(withNull), MgfFields(withNull));
      Sha256AlgorithmExact(Sha256Content(withNull));
    }
  }

  lemma {:induction false} LookupAt(fields: seq<Element>, i: nat)
    requires InOrder(fields) && i < |fields|
    ensures Lookup(fields, fields[i].tag) == Some(fields[i].value)
  {
    var front := fields[..|fields| - 1];
    if i < |front| {
      assert InOrder(front) && front[i] == fields[i];
      assert fields[i].tag < fields[|front|].tag;
      LookupAt(front, i);
    }
  }

  lemma {:induction false} LookupFinds(fields: seq<Element>, tag: byte) returns (i: nat)
    requires Lookup(fields, tag).Some?
    ensures i < |fields| && fields[i].tag == tag
  {
    i := |fields| - 1;
    if fields[i].tag != tag {
      i := LookupFinds(fields[..i], tag);
    }
  }

  lemma TagsRise(fields: seq<Element>, i: nat)
    requires InOrder(fields) && i < |fields|
    ensures fields[i].tag >= FIELD_HASH + i && |fields| - i <= FIELD_TRAILER + 1 - fields[i].tag
    decreases |fields| - i
  {
    var j: nat := 0;
    while j < i
      invariant j <= i && fields[j].tag >= FIELD_HASH + j
    {
      assert fields[j].tag < fields[j + 1].tag;
      j := j + 1;
    }
    if i + 1 < |fields| {
      assert fields[i].tag < fields[i + 1].tag;
      TagsRise(fields, i + 1);
    }
  }

  /** The first two fields are the hash and the mask generation; the rest is one of four shapes. */
  lemma FieldShapes(fields: seq<Element>)
    requires InOrder(fields) && Lookup(fields, FIELD_HASH).Some? && Lookup(fields, FIELD_MGF).Some?
    ensures 2 <= |fields| <= 4 && fields[0].tag == FIELD_HASH && fields[1].tag == FIELD_MGF
    ensures |fields| == 3 ==> fields[2].tag == FIELD_SALT || fields[2].tag == FIELD_TRAILER
    ensures |fields| == 4 ==> fields[2].tag == FIELD_SALT && fields[3].tag == FIELD_TRAILER
  {
    var h := LookupFinds(fields, FIELD_HASH);
    var m := LookupFinds(fields, FIELD_MGF);
    hide Lookup;
    TagsRise(fields, h);
    TagsRise(fields, m);
    TagsRise(fields, 0);
    TagsRise(fields, 1);
    if |fields| > 2 {
      TagsRise(fields, 2);
    }
    if |fields| > 3 {
      TagsRise(fields, 3);
    }
  }

  lemma FieldLookups(fields: seq<Element>)
    requires InOrder(fields) && 2 <= |fields| <= 4 && fields[0].tag == FIELD_HASH && fields[1].tag == FIELD_MGF
    ensures Lookup(fields, FIELD_HASH) == Some(fields[0].value) && Lookup(fields, FIELD_MGF) == Some(fields[1].value)
    ensures Lookup(fields, FIELD_SALT)
            == if |fields| >= 3 && fields[2].tag == FIELD_SALT then Some(fields[2].value) else None
    ensures Lookup(fields, FIELD_TRAILER)
            == if |fields| >= 3 && fields[|fields| - 1].tag == FIELD_TRAILER then Some(fields[|fields| - 1].value)
               else None
  {
    hide Lookup;
    LookupAt(fields, 0);
    LookupAt(fields, 1);
    LookupAt(fields, |fields| - 1);
    if |fields| >= 3 && fields[2].tag == FIELD_SALT {
      LookupAt(fields, 2);
    } else {
      LookupAbsent(fields, FIELD_SALT);
    }
    if |fields| < 3 || fields[|fields| - 1].tag != FIELD_TRAILER {
      LookupAbsent(fields, FIELD_TRAILER);
    }
  }

  lemma PolicySpelled(fields: seq<Element>) returns (c: Spelling)
    requires Policy(fields)
    ensures Acceptable(c) && fields == FieldsOf(c)
  {
    hide Lookup, HashField, MgfField, NonnegativeInteger, Wrap, Sha256Content, MgfContent, IntegerBytes, InOrder;
    FieldShapes(fields);
    FieldLookups(fields);
    HashFieldExact(fields[0].value);
    MgfFieldExact(fields[1].value);
    var hashNull :| fields[0].value == Wrap(TAG_SEQUENCE, Sha256Content(hashNull));
    var mgfNull :| fields[1].value == Wrap(TAG_SEQUENCE, MgfContent(mgfNull));
    var hasSalt := |fields| >= 3 && fields[2].tag == FIELD_SALT;
    var hasTrailer := |fields| >= 3 && fields[|fields| - 1].tag == FIELD_TRAILER;
    var salt: Option<nat> := None;
    if hasSalt {
      salt := Some(SaltOf(fields).value);
      IntegerFieldExact(fields[2].value, salt.value);
    }
    if hasTrailer {
      IntegerFieldExact(fields[|fields| - 1].value, 1);
    }
    c := Spelling(hashNull, mgfNull, salt, hasTrailer);
  }

  lemma IntegerFieldExact(value: bytes, n: nat)
    requires n < 0x8000_0000
    ensures NonnegativeInteger(value) == Some(n) <==> value == Wrap(TAG_INTEGER, IntegerBytes(n))
  {
    hide NonnegativeInteger, PrintElement, IntegerBytes;
    IntegerExact(value, n);
  }

  lemma SpelledPolicy(c: Spelling)
    requires Acceptable(c)
    ensures Policy(FieldsOf(c))
  {
    hide Lookup, HashField, MgfField, NonnegativeInteger, Wrap, Sha256Content, MgfContent, IntegerBytes;
    var fields := FieldsOf(c);
    assert InOrder(fields);
    FieldLookups(fields);
    HashFieldExact(HashValue(c));
    MgfFieldExact(MgfValue(c));
    if c.salt.Some? {
      IntegerFieldExact(Wrap(TAG_INTEGER, IntegerBytes(c.salt.value)), c.salt.value);
    }
    IntegerFieldExact(Wrap(TAG_INTEGER, IntegerBytes(1)), 1);
  }

  /** What the program makes of the content of a present parameters SEQUENCE. */
  predicate ParametersPermit(parameters: bytes) {
    Decode(parameters).Some? && FoldPermits(Decode(parameters).value)
  }

  lemma SpelledWellFormed(c: Spelling)
    requires Acceptable(c)
    ensures WellFormed(FieldsOf(c))
  {
    hide Wrap, Sha256Content, MgfContent, IntegerBytes;
  }

  /** Present parameters are accepted exactly when they are one of 2 * 2 * 34 * 2 byte strings. */
  lemma AcceptedParametersAreListed(parameters: bytes)
    ensures ParametersPermit(parameters) <==> exists c :: Acceptable(c) && parameters == Print(FieldsOf(c))
  {
    hide Decode, Print, FieldsOf, Policy, FoldPermits;
    if ParametersPermit(parameters) {
      var fields := Decode(parameters).value;
      FoldIsPolicy(fields);
      var c := PolicySpelled(fields);
      AcceptsExactlyPrintedElements(parameters, fields);
    }
    if c :| Acceptable(c) && parameters == Print(FieldsOf(c)) {
      SpelledPolicy(c);
      SpelledWellFormed(c);
      FoldIsPolicy(FieldsOf(c));
      AcceptsExactlyPrintedElements(parameters, FieldsOf(c));
    }
  }

  // ---------- how many there are ----------

  lemma PrintInjective(a: seq<Element>, b: seq<Element>)
    requires WellFormed(a) && WellFormed(b) && Print(a) == Print(b)
    ensures a == b
  {
    hide Decode, Print, WellFormed;
    AcceptsExactlyPrintedElements(Print(a), a);
    AcceptsExactlyPrintedElements(Print(b), b);
  }

  lemma WrapInjective(tag: byte, a: bytes, b: bytes)
    requires LowTag(tag) && |a| <= 100 && |b| <= 100 && Wrap(tag, a) == Wrap(tag, b)
    ensures a == b
  {
    hide PrintElement;
    PrintOne(Element(tag, a));
    PrintOne(Element(tag, b));
    PrintInjective([Element(tag, a)], [Element(tag, b)]);
  }

  lemma Sha256ContentInjective(a: bool, b: bool)
    requires Sha256Content(a) == Sha256Content(b)
    ensures a == b
  {
    hide Print;
    PrintInjective(Sha256Fields(a), Sha256Fields(b));
  }

  lemma MgfContentInjective(a: bool, b: bool)
    requires MgfContent(a) == MgfContent(b)
    ensures a == b
  {
    hide Print, Sha256Content;
    PrintInjective(MgfFields(a), MgfFields(b));
    assert MgfFields(a)[1] == MgfFields(b)[1];
    Sha256ContentInjective(a, b);
  }

  /** Different spellings are different byte strings. */
  lemma SpellingsDiffer(c: Spelling, d: Spelling)
    requires Acceptable(c) && Acceptable(d) && Print(FieldsOf(c)) == Print(FieldsOf(d))
    ensures c == d
  {
    hide Print, Wrap, Sha256Content, MgfContent, IntegerBytes, NonnegativeInteger;
    SpelledWellFormed(c);
    SpelledWellFormed(d);
    PrintInjective(FieldsOf(c), FieldsOf(d));
    assert FieldsOf(c)[0] == FieldsOf(d)[0] && FieldsOf(c)[1] == FieldsOf(d)[1];
    WrapInjective(TAG_SEQUENCE, Sha256Content(c.hashNull), Sha256Content(d.hashNull));
    Sha256ContentInjective(c.hashNull, d.hashNull);
    WrapInjective(TAG_SEQUENCE, MgfContent(c.mgfNull), MgfContent(d.mgfNull));
    MgfContentInjective(c.mgfNull, d.mgfNull);
    assert FieldsOf(c)[2..] == SaltFields(c.salt) + TrailerFields(c.trailer);
    assert FieldsOf(d)[2..] == SaltFields(d.salt) + TrailerFields(d.trailer);
    assert c.salt.Some? ==> FieldsOf(c)[2..][0].tag == FIELD_SALT;
    assert d.salt.Some? ==> FieldsOf(d)[2..][0].tag == FIELD_SALT;
    if c.salt.Some? && d.salt.Some? {
      assert FieldsOf(c)[2..][0] == FieldsOf(d)[2..][0];
      IntegerFieldExact(Wrap(TAG_INTEGER, IntegerBytes(c.salt.value)), c.salt.value);
      IntegerFieldExact(Wrap(TAG_INTEGER, IntegerBytes(d.salt.value)), d.salt.value);
    }
  }

  const SPELLINGS := 2 * 2 * 2 * (SALT_LENGTH + 2)

  /** The spelling with a number below `SPELLINGS`. */
  function Spell(k: nat): (c: Spelling)
    requires k < SPELLINGS
    ensures Acceptable(c)
  {
    Spelling(k % 2 == 1, k / 2 % 2 == 1, if k / 8 == 0 then None else Some(k / 8 - 1), k / 4 % 2 == 1)
  }

  function NumberOf(c: Spelling): nat {
    (if c.hashNull then 1 else 0) + (if c.mgfNull then 2 else 0) + (if c.trailer then 4 else 0)
    + if c.salt.None? then 0 else 8 * (c.salt.value + 1)
  }

  lemma SpellInverse(c: Spelling)
    requires Acceptable(c)
    ensures NumberOf(c) < SPELLINGS && Spell(NumberOf(c)) == c
  {
  }

  lemma NumberOfSpell(k: nat)
    requires k < SPELLINGS
    ensures NumberOf(Spell(k)) == k
  {
    assert k == 2 * (k / 2) + k % 2 && k / 2 == 2 * (k / 4) + k / 2 % 2 && k / 4 == 2 * (k / 8) + k / 4 % 2;
  }

  lemma {:induction false} FirstSpellings(n: nat) returns (all: set<bytes>)
    requires n <= SPELLINGS
    ensures |all| == n && forall x :: x in all <==> exists k :: 0 <= k < n && x == Print(FieldsOf(Spell(k)))
  {
    hide Print, FieldsOf, Spell, NumberOf;
    if n == 0 {
      all := {};
    } else {
      var fewer := FirstSpellings(n - 1);
      var last := Print(FieldsOf(Spell(n - 1)));
      if last in fewer {
        var k :| 0 <= k < n - 1 && last == Print(FieldsOf(Spell(k)));
        SpellingsDiffer(Spell(k), Spell(n - 1));
        NumberOfSpell(k);
        NumberOfSpell(n - 1);
      }
      all := fewer + {last};
    }
  }

  /** Exactly 272 byte strings are accepted as present parameters. */
  lemma AcceptedParametersNumber() returns (all: set<bytes>)
    ensures |all| == 272 && forall parameters :: parameters in all <==> ParametersPermit(parameters)
  {
    hide Print, FieldsOf, Spell, NumberOf, Acceptable, ParametersPermit;
    all := FirstSpellings(SPELLINGS);
    forall x ensures x in all <==> ParametersPermit(x) {
      AcceptedParametersAreListed(x);
      if c :| Acceptable(c) && x == Print(FieldsOf(c)) {
        SpellInverse(c);
      }
    }
  }

  // ---------- the whole check, from the certificate ----------

  /** The AlgorithmIdentifier of the SubjectPublicKeyInfo in a TBSCertificate. */
  function KeyAlgorithm(tbsCertificate: bytes): Option<seq<Element>> {
    var content :- Single(tbsCertificate, TAG_SEQUENCE);
    var tbs :- Decode(content);
    var spkiIndex := if tbs != [] && tbs[0].tag == TAG_VERSION then 6 else 5;
    if |tbs| <= spkiIndex || tbs[spkiIndex].tag != TAG_SEQUENCE then None else
      var spki :- Decode(tbs[spkiIndex].value);
      if |spki| != 2 || spki[0].tag != TAG_SEQUENCE || spki[1].tag != TAG_BIT_STRING then None else
        Decode(spki[0].value)
  }

  /** What stands around the AlgorithmIdentifier in a TBSCertificate: the optional version, the serial number,
      signature, issuer, validity and subject, the key's BIT STRING, and whatever follows. */
  datatype Around = Around(version: seq<Element>, five: seq<Element>, bits: Value, rest: seq<Element>)

  predicate ValidAround(c: Around) {
    && (c.version == [] || (|c.version| == 1 && c.version[0].tag == 0xA0))
    && |c.five| == 5 && (c.version == [] ==> c.five[0].tag != 0xA0)
    && WellFormed(c.five) && WellFormed(c.rest)
  }

  predicate IsValue(s: bytes) {
    |s| < 0x1_0000_0000
  }

  function KeyInfo(algorithm: seq<Element>, bits: Value): seq<Element>
    requires IsValue(Print(algorithm))
  {
    [Element(0x30, Print(algorithm)), Element(0x03, bits)]
  }

  function Tbs(c: Around, algorithm: seq<Element>): seq<Element>
    requires IsValue(Print(algorithm)) && IsValue(Print(KeyInfo(algorithm, c.bits)))
  {
    c.version + c.five + [Element(0x30, Print(KeyInfo(algorithm, c.bits)))] + c.rest
  }

  /** The bytes are the printed certificate with this algorithm. */
  predicate PrintsAs(tbsCertificate: bytes, c: Around, algorithm: seq<Element>) {
    && ValidAround(c) && WellFormed(algorithm)
    && IsValue(Print(algorithm)) && IsValue(Print(KeyInfo(algorithm, c.bits))) && IsValue(Print(Tbs(c, algorithm)))
    && tbsCertificate == PrintElement(Element(0x30, Print(Tbs(c, algorithm))))
  }

  /** What is found is the algorithm of the one certificate that the bytes print. */
  lemma KeyAlgorithmExact(tbsCertificate: bytes, algorithm: seq<Element>)
    ensures KeyAlgorithm(tbsCertificate) == Some(algorithm)
            <==> exists c :: PrintsAs(tbsCertificate, c, algorithm)
  {
    hide KeyAlgorithm, PrintsAs;
    if KeyAlgorithm(tbsCertificate) == Some(algorithm) {
      var c := KeyAlgorithmPrints(tbsCertificate, algorithm);
    }
    if c :| PrintsAs(tbsCertificate, c, algorithm) {
      PrintedKeyAlgorithm(tbsCertificate, c, algorithm);
    }
  }

  lemma KeyAlgorithmPrints(tbsCertificate: bytes, algorithm: seq<Element>) returns (c: Around)
    requires KeyAlgorithm(tbsCertificate) == Some(algorithm)
    ensures PrintsAs(tbsCertificate, c, algorithm)
  {
    hide Single, Decode, Print, PrintElement;
    var content := Single(tbsCertificate, TAG_SEQUENCE).value;
    SingleExact(tbsCertificate, TAG_SEQUENCE, content);
    var tbs := Decode(content).value;
    AcceptsExactlyPrintedElements(content, tbs);
    var k := if tbs[0].tag == TAG_VERSION then 6 else 5;
    var spki := Decode(tbs[k].value).value;
    AcceptsExactlyPrintedElements(tbs[k].value, spki);
    AcceptsExactlyPrintedElements(spki[0].value, algorithm);
    c := Around(tbs[..k - 5], tbs[k - 5..k], spki[1].value, tbs[k + 1..]);
    assert spki == KeyInfo(algorithm, c.bits);
    assert tbs == Tbs(c, algorithm);
  }

  lemma PrintedKeyAlgorithm(tbsCertificate: bytes, c: Around, algorithm: seq<Element>)
    requires PrintsAs(tbsCertificate, c, algorithm)
    ensures KeyAlgorithm(tbsCertificate) == Some(algorithm)
  {
    hide Single, Decode, Print, PrintElement;
    var tbs, spki := Tbs(c, algorithm), KeyInfo(algorithm, c.bits);
    assert WellFormed(tbs) && WellFormed(spki);
    SingleExact(tbsCertificate, TAG_SEQUENCE, Print(tbs));
    AcceptsExactlyPrintedElements(Print(tbs), tbs);
    AcceptsExactlyPrintedElements(Print(spki), spki);
    AcceptsExactlyPrintedElements(Print(algorithm), algorithm);
    var k := if c.version == [] then 5 else 6;
    assert tbs[0] == (if c.version == [] then c.five[0] else c.version[0]);
    assert tbs[k] == Element(0x30, Print(spki));
  }

  predicate AlgorithmPermits(algorithm: seq<Element>) {
    && algorithm != [] && algorithm[0] == Element(TAG_OID, RSASSA_PSS_OID)
    && (|algorithm| == 1
        || (|algorithm| == 2 && algorithm[1].tag == TAG_SEQUENCE && ParametersPermit(algorithm[1].value)))
  }

  lemma {:induction false} FoldFailsOn(fields: seq<Element>, k: nat)
    requires k <= |fields| && Fold(fields[..k]) == None
    ensures Fold(fields) == None
    decreases |fields|
  {
    if k < |fields| {
      var front := fields[..|fields| - 1];
      assert front[..k] == fields[..k];
      FoldFailsOn(front, k);
    } else {
      assert fields[..k] == fields;
    }
  }

  /** The loop over the parameter fields and the check after it. */
  method CheckFields(fields: seq<Element>) returns (r: Option<()>)
    ensures r.Some? <==> FoldPermits(fields)
  {
    hide HashField, MgfField, NonnegativeInteger;
    var hashIsSha256, mgf1IsSha256 := false, false;
    var minimumSalt: nat := 20;
    var previousTag: int := 0x9F;
    for i := 0 to |fields|
      invariant Fold(fields[..i]) == Some(State(hashIsSha256, mgf1IsSha256, minimumSalt, previousTag))
    {
      var tag, value := fields[i].tag, fields[i].value;
      assert fields[..i + 1][..i] == fields[..i] && fields[..i + 1][i] == fields[i];
      if Fold(fields[..i + 1]) == None {
        FoldFailsOn(fields, i + 1);
      }
      if !(tag in {FIELD_HASH, FIELD_MGF, FIELD_SALT, FIELD_TRAILER}) || tag <= previousTag {
        return None;
      }
      if tag == FIELD_HASH {
        hashIsSha256 :- HashField(value);
      } else if tag == FIELD_MGF {
        mgf1IsSha256 :- MgfField(value);
      } else if tag == FIELD_SALT {
        minimumSalt :- NonnegativeInteger(value);
      } else {
        var trailer :- NonnegativeInteger(value);
        if trailer != 1 {
          return None;
        }
      }
      previousTag := tag;
    }
    assert fields[..|fields|] == fields;
    if !hashIsSha256 || !mgf1IsSha256 || minimumSalt > SALT_LENGTH {
      return None;
    }
    return Some(());
  }

  lemma PermittedKeys(tbsCertificate: bytes)
    ensures (KeyAlgorithm(tbsCertificate).Some? && AlgorithmPermits(KeyAlgorithm(tbsCertificate).value))
            <==> exists c, algorithm :: PrintsAs(tbsCertificate, c, algorithm) && AlgorithmPermits(algorithm)
  {
    hide KeyAlgorithm, PrintsAs, AlgorithmPermits;
    if KeyAlgorithm(tbsCertificate).Some? {
      KeyAlgorithmExact(tbsCertificate, KeyAlgorithm(tbsCertificate).value);
    }
    if c, algorithm :| PrintsAs(tbsCertificate, c, algorithm) && AlgorithmPermits(algorithm) {
      KeyAlgorithmExact(tbsCertificate, algorithm);
    }
  }

  /** `_check_pss_key_restrictions`; `None` where it raises. */
  method CheckPssKeyRestrictions(tbsCertificate: bytes) returns (r: Option<()>)
    ensures r.Some? <==> KeyAlgorithm(tbsCertificate).Some? && AlgorithmPermits(KeyAlgorithm(tbsCertificate).value)
    ensures r.Some? <==> exists c, algorithm :: PrintsAs(tbsCertificate, c, algorithm) && AlgorithmPermits(algorithm)
  {
    hide Decode, FoldPermits, PrintsAs;
    PermittedKeys(tbsCertificate);
    var content :- Single(tbsCertificate, TAG_SEQUENCE);
    var tbs :- DerElements(content);
    var spkiIndex := if tbs != [] && tbs[0].tag == TAG_VERSION then 6 else 5;
    if |tbs| <= spkiIndex || tbs[spkiIndex].tag != TAG_SEQUENCE {
      return None;
    }
    var spki :- DerElements(tbs[spkiIndex].value);
    if |spki| != 2 || spki[0].tag != TAG_SEQUENCE || spki[1].tag != TAG_BIT_STRING {
      return None;
    }
    var algorithm :- DerElements(spki[0].value);
    if algorithm == [] || algorithm[0] != Element(TAG_OID, RSASSA_PSS_OID) {
      return None;
    }
    if |algorithm| == 1 {
      return Some(());
    }
    if |algorithm| != 2 || algorithm[1].tag != TAG_SEQUENCE {
      return None;
    }
    var fields :- DerElements(algorithm[1].value);
    r := CheckFields(fields);
  }

  /** A key passes exactly when its algorithm is id-RSASSA-PSS alone or with a listed parameters SEQUENCE. */
  lemma PermittedAlgorithmsAreListed(algorithm: seq<Element>)
    ensures AlgorithmPermits(algorithm) <==>
            || algorithm == [Element(TAG_OID, RSASSA_PSS_OID)]
            || exists c :: Acceptable(c) && |Print(FieldsOf(c))| < 0x1_0000_0000 &&
                 algorithm == [Element(TAG_OID, RSASSA_PSS_OID), Element(TAG_SEQUENCE, Print(FieldsOf(c)))]
  {
    hide ParametersPermit, Print, FieldsOf;
    if |algorithm| == 2 && algorithm[1].tag == TAG_SEQUENCE {
      AcceptedParametersAreListed(algorithm[1].value);
    }
  }
}
