/** Canonical domain names (domain.py). */
module Domain {
  import opened Bytes

  const MAX_DOMAIN := 253
  const DOT: byte := 46
  const HYPHEN: byte := 45

  /** `domain.encode("ascii")`. */
  function Ascii(domain: string): (r: Option<bytes>)
    ensures r.Some? ==> |r.value| == |domain|
  {
    if forall i :: 0 <= i < |domain| ==> domain[i] < 128 as char
    then Some(seq(|domain|, i requires 0 <= i < |domain| && domain[i] < 128 as char => domain[i] as int))
    else None
  }

  /** `encoded.split(b".")`. */
  function Labels(encoded: bytes): (labels: seq<bytes>)
    ensures |labels| >= 1
  {
    if encoded == [] then [[]]
    else
      var rest := Labels(encoded[1..]);
      if encoded[0] == DOT then [[]] + rest else [[encoded[0]] + rest[0]] + rest[1..]
  }

  predicate LabelByte(value: byte) {
    97 <= value <= 122 || 48 <= value <= 57 || value == HYPHEN
  }

  predicate CanonicalLabel(part: bytes) {
    && 1 <= |part| <= 63
    && part[0] != HYPHEN && part[|part| - 1] != HYPHEN
    && forall i :: 0 <= i < |part| ==> LabelByte(part[i])
  }

  predicate IsCanonicalDomain(domain: string) {
    match Ascii(domain)
    case None => false
    case Some(encoded) =>
      && 1 <= |encoded| <= MAX_DOMAIN && encoded[|encoded| - 1] != DOT
      && forall part :: part in Labels(encoded) ==> CanonicalLabel(part)
  }

  /** The bytes a canonical name is sent as. */
  function Encoded(domain: string): (encoded: bytes)
    requires IsCanonicalDomain(domain)
    ensures 1 <= |encoded| <= MAX_DOMAIN
  {
    Ascii(domain).value
  }

  lemma EncodedBytes(domain: string)
    requires IsCanonicalDomain(domain)
    ensures |Encoded(domain)| == |domain|
    ensures forall i :: 0 <= i < |domain| ==> Encoded(domain)[i] == domain[i] as int
  {
    hide Labels, CanonicalLabel;
  }

  lemma EncodedInjective(a: string, b: string)
    requires IsCanonicalDomain(a) && IsCanonicalDomain(b) && Encoded(a) == Encoded(b)
    ensures a == b
  {
    forall i | 0 <= i < |a| ensures a[i] == b[i] {
      assert Encoded(a)[i] == a[i] as int && Encoded(b)[i] == b[i] as int;
    }
  }

  // ---------- canonical names are the dotted lists of canonical labels ----------

  /** `b".".join(labels)`. */
  function Dotted(labels: seq<bytes>): bytes
    requires labels != []
  {
    if |labels| == 1 then labels[0] else labels[0] + ([DOT] + Dotted(labels[1..]))
  }

  lemma {:induction false} DottedLabels(encoded: bytes)
    ensures Dotted(Labels(encoded)) == encoded
  {
    if encoded != [] {
      var head, rest := encoded[0], Labels(encoded[1..]);
      DottedLabels(encoded[1..]);
      HeadTail(encoded);
      var labels := Labels(encoded);
      if head == DOT {
        assert labels == [[]] + rest && labels[1..] == rest;
        AppendNothing([DOT] + Dotted(rest));
        assert Dotted(labels) == [] + ([DOT] + Dotted(rest));
      } else {
        assert labels[0] == [head] + rest[0] && labels[1..] == rest[1..];
        if |rest| > 1 {
          Assoc([head], rest[0], [DOT] + Dotted(rest[1..]));
        }
      }
    }
  }

  lemma {:induction false} LabelsPrefix(part: bytes, rest: bytes)
    requires DOT !in part
    ensures Labels(part + rest) == [part + Labels(rest)[0]] + Labels(rest)[1..]
  {
    if part == [] {
      AppendNothing(rest);
      AppendNothing(Labels(rest)[0]);
      HeadTail(Labels(rest));
    } else {
      var tail := part[1..];
      assert (part + rest)[0] == part[0] && (part + rest)[1..] == tail + rest;
      LabelsPrefix(tail, rest);
      HeadTail(part);
      Assoc([part[0]], tail, Labels(rest)[0]);
    }
  }

  lemma {:induction false} LabelsDotted(labels: seq<bytes>)
    requires labels != [] && forall i :: 0 <= i < |labels| ==> DOT !in labels[i]
    ensures Labels(Dotted(labels)) == labels
  {
    var head := labels[0];
    if |labels| == 1 {
      AppendNothing(head);
      LabelsPrefix(head, []);
      assert Labels([]) == [[]];
      AppendNothing([head]);
      assert labels == [head];
    } else {
      var rest := Dotted(labels[1..]);
      LabelsDotted(labels[1..]);
      assert ([DOT] + rest)[1..] == rest;
      assert Labels([DOT] + rest) == [[]] + labels[1..];
      LabelsPrefix(head, [DOT] + rest);
      AppendNothing(head);
      HeadTail(labels);
      assert ([[]] + labels[1..])[1..] == labels[1..];
    }
  }

  lemma {:induction false} LastByte(labels: seq<bytes>)
    requires labels != [] && forall i :: 0 <= i < |labels| ==> CanonicalLabel(labels[i])
    ensures Dotted(labels) != [] && Dotted(labels)[|Dotted(labels)| - 1] != DOT
  {
    if |labels| > 1 {
      LastByte(labels[1..]);
    }
  }

  /** Accepted names are exactly the dotted lists of canonical labels of at most 253 bytes in all. */
  lemma CanonicalIsDottedLabels(domain: string)
    ensures IsCanonicalDomain(domain) <==>
            && Ascii(domain).Some? && |domain| <= MAX_DOMAIN
            && exists labels :: labels != [] && (forall i :: 0 <= i < |labels| ==> CanonicalLabel(labels[i]))
                                && Ascii(domain).value == Dotted(labels)
  {
    hide Labels, Dotted;
    if IsCanonicalDomain(domain) {
      var encoded := Encoded(domain);
      DottedLabels(encoded);
      assert forall i :: 0 <= i < |Labels(encoded)| ==> Labels(encoded)[i] in Labels(encoded);
    }
    if Ascii(domain).Some? && |domain| <= MAX_DOMAIN {
      if labels :| labels != [] && (forall i :: 0 <= i < |labels| ==> CanonicalLabel(labels[i]))
                   && Ascii(domain).value == Dotted(labels) {
        LabelsDotted(labels);
        LastByte(labels);
      }
    }
  }

  // ---------- canonical names, byte by byte ----------

  predicate NameByte(b: byte) {
    || 'a' as int <= b <= 'z' as int || '0' as int <= b <= '9' as int || b == '-' as int || b == '.' as int
  }

  predicate Inner(b: byte) {
    b != '-' as int && b != '.' as int
  }

  /** Lower-case letters, digits, hyphens and dots; no hyphen or dot first, last or beside a dot; a dot among
      every 64 bytes. */
  ghost predicate Regular(s: bytes) {
    && s != [] && Inner(s[0]) && Inner(s[|s| - 1])
    && (forall i :: 0 <= i < |s| ==> NameByte(s[i]))
    && (forall i :: 0 < i < |s| - 1 && s[i] == 46 ==> Inner(s[i - 1]) && Inner(s[i + 1]))
    && forall i :: 0 <= i <= |s| - 64 ==> DotWithin(s, i)
  }

  /** One of the 64 bytes from `i` on is a dot. */
  ghost predicate DotWithin(s: bytes, i: nat) {
    exists k :: i <= k < i + 64 && k < |s| && s[k] == 46
  }

  lemma FirstDot(s: bytes) returns (k: nat)
    requires DOT in s
    ensures k < |s| && s[k] == DOT && DOT !in s[..k]
  {
    k := 0;
    while s[k] != DOT
      invariant k < |s| && DOT !in s[..k] && DOT in s[k..]
      decreases |s| - k
    {
      k := k + 1;
    }
  }

  lemma RegularLabel(s: bytes)
    requires DOT !in s
    ensures Regular(s) <==> CanonicalLabel(s)
  {
    assert Regular(s) && |s| >= 64 ==> DotWithin(s, 0);
  }

  lemma RegularSplit(s: bytes, k: nat)
    requires k < |s| && s[k] == DOT && DOT !in s[..k]
    ensures Regular(s) <==> CanonicalLabel(s[..k]) && Regular(s[k + 1..])
  {
    if Regular(s) {
      RegularFront(s, k);
      RegularRest(s, k);
    }
    if CanonicalLabel(s[..k]) && Regular(s[k + 1..]) {
      RegularJoin(s, k);
    }
  }

  lemma RegularFront(s: bytes, k: nat)
    requires k < |s| && s[k] == DOT && DOT !in s[..k] && Regular(s)
    ensures CanonicalLabel(s[..k]) && k + 1 < |s| && Inner(s[k + 1])
  {
    assert |s| >= 64 ==> DotWithin(s, 0);
    assert forall j :: 0 <= j < k ==> s[j] in s[..k];
    forall i | 0 <= i < k ensures LabelByte(s[i]) {
      assert NameByte(s[i]) && s[..k][i] == s[i];
    }
  }

  lemma RegularRest(s: bytes, k: nat)
    requires k < |s| && s[k] == DOT && DOT !in s[..k] && Regular(s)
    ensures Regular(s[k + 1..])
  {
    RegularFront(s, k);
    var t := s[k + 1..];
    forall i | 0 <= i <= |t| - 64 ensures DotWithin(t, i) {
      assert DotWithin(s, k + 1 + i);
      var j :| k + 1 + i <= j < k + 1 + i + 64 && j < |s| && s[j] == 46;
      assert t[j - (k + 1)] == 46;
    }
    forall i | 0 < i < |t| - 1 && t[i] == 46 ensures Inner(t[i - 1]) && Inner(t[i + 1]) {
      assert s[k + 1 + i] == 46;
    }
  }

  lemma RegularJoin(s: bytes, k: nat)
    requires k < |s| && s[k] == DOT && CanonicalLabel(s[..k]) && Regular(s[k + 1..])
    ensures Regular(s)
  {
    var h, t := s[..k], s[k + 1..];
    assert forall i :: 0 <= i < k ==> s[i] == h[i] && LabelByte(h[i]);
    assert forall i :: k < i < |s| ==> s[i] == t[i - k - 1];
    forall i | 0 <= i <= |s| - 64 ensures DotWithin(s, i) {
      if i > k {
        assert DotWithin(t, i - k - 1);
        var j :| i - k - 1 <= j < i - k - 1 + 64 && j < |t| && t[j] == 46;
        assert s[j + k + 1] == 46;
      } else {
        assert s[k] == 46;
      }
    }
    forall i | 0 < i < |s| - 1 && s[i] == 46 ensures Inner(s[i - 1]) && Inner(s[i + 1]) {
      if i > k + 1 {
        assert t[i - k - 1] == 46;
      } else if i == k {
        assert s[i - 1] == h[k - 1] && s[i + 1] == t[0];
        assert LabelByte(h[k - 1]);
      }
    }
    forall i | 0 <= i < |s| ensures NameByte(s[i]) {
      if i < k {
        assert LabelByte(h[i]);
      }
    }
  }

  lemma {:induction false} LabelsRegular(s: bytes)
    ensures (forall part :: part in Labels(s) ==> CanonicalLabel(part)) <==> Regular(s)
    decreases |s|
  {
    hide Labels, Regular, CanonicalLabel;
    if DOT in s {
      var k := FirstDot(s);
      var h, t := s[..k], s[k + 1..];
      assert s == h + ([DOT] + t);
      LabelsPrefix(h, [DOT] + t);
      DotFirst(t);
      AppendNothing(h);
      assert Labels(s) == [h] + Labels(t);
      RegularSplit(s, k);
      LabelsRegular(t);
      assert forall part :: part in Labels(s) <==> part == h || part in Labels(t);
    } else {
      AppendNothing(s);
      LabelsPrefix(s, []);
      NoLabels();
      assert Labels(s) == [s];
      RegularLabel(s);
    }
  }

  lemma DotFirst(t: bytes)
    ensures Labels([DOT] + t) == [[]] + Labels(t)
  {
    assert ([DOT] + t)[1..] == t;
  }

  lemma NoLabels()
    ensures Labels([]) == [[]]
  {
  }

  /** Canonical names without reference to labels. */
  lemma CanonicalIsRegular(domain: string)
    ensures IsCanonicalDomain(domain) <==> Ascii(domain).Some? && |domain| <= 253 && Regular(Ascii(domain).value)
  {
    hide Labels, CanonicalLabel;
    if Ascii(domain).Some? {
      LabelsRegular(Ascii(domain).value);
    }
  }
}
