/** The state of `compat::inet_pton4` while it scans a text one character at
    a time, related to the '.'-separated fields of the part scanned so far:
    each character either keeps the scanned part a possible beginning of a
    dotted quad, with the state tracking it, or shows that no text beginning
    that way is one. */
module QuadScan {
  import opened Options
  import opened Numerals
  import opened Strings
  import opened DottedQuad

  /** A field that some accepted octet begins with: digits only, no leading
      zero before another digit, and a value of at most 255. The empty field
      is one. */
  predicate OctetPrefix(f: string) {
    Over(f, DecDigits) && (|f| > 1 ==> f[0] != '0') && NumeralValue(f, DecDigits) <= 255
  }

  /** The scanner's variables after the text `p`: `tp` indexes the field
      being read, `sawDigit` says it has a digit, `octets` counts the fields
      begun with a digit, and `tmp` holds the value of every field so far. */
  predicate Scanned(p: string, sawDigit: bool, octets: nat, tmp: seq<Byte>, tp: nat) {
    ScanState(Split(p, '.'), sawDigit, octets, tmp, tp)
  }

  /** The same, given the fields. */
  predicate ScanState(f: seq<string>, sawDigit: bool, octets: nat, tmp: seq<Byte>, tp: nat) {
    && |tmp| == 4 && 1 <= |f| <= 4 && tp == |f| - 1
    && sawDigit == (f[tp] != [])
    && octets == (if sawDigit then |f| else |f| - 1)
    && (forall j :: 0 <= j < tp ==> ValidOctet(f[j]) && tmp[j] == NumeralValue(f[j], DecDigits))
    && OctetPrefix(f[tp]) && tmp[tp] == NumeralValue(f[tp], DecDigits)
  }

  /** Some dotted quad may begin with `p`: it has at most four fields, the
      closed ones are octets and the open one begins an octet. */
  predicate Viable(p: string) {
    var f := Split(p, '.');
    && |f| <= 4
    && (forall j :: 0 <= j < |f| - 1 ==> ValidOctet(f[j]))
    && OctetPrefix(f[|f| - 1])
  }

  /** A longer numeral denotes at least as much as its prefix. */
  lemma {:induction false} ValueMonotone(p: string, s: string, a: string)
    requires |a| >= 1 && Over(s, a) && p <= s
    ensures Over(p, a) && NumeralValue(p, a) <= NumeralValue(s, a)
    decreases |s|
  {
    if p != s {
      var s' := s[..|s| - 1];
      assert p <= s';
      ValueMonotone(p, s', a);
      MulAtLeast(|a|, NumeralValue(s', a));
    }
  }

  /** Every beginning of an accepted octet is an octet prefix. */
  lemma {:induction false} ValidPrefix(p: string, s: string)
    requires ValidOctet(s) && p <= s
    ensures OctetPrefix(p)
  {
    DecimalTable();
    ValueMonotone(p, s, DecDigits);
  }

  /** Every beginning of a dotted quad is viable. */
  lemma {:induction false} QuadPrefixViable(t: string, m: nat)
    requires m <= |t| && IsQuad(t)
    ensures Viable(t[..m])
  {
    var F, f := Split(t, '.'), Split(t[..m], '.');
    SplitPrefix(t, m, '.');
    forall j | 0 <= j < |f| - 1
      ensures ValidOctet(f[j])
    {
      assert F[j] == f[j];
    }
    ValidPrefix(f[|f| - 1], F[|f| - 1]);
  }

  /** Nothing scanned yet: one empty field, with `tmp[0]` cleared. */
  lemma {:induction false} ScanStart(tmp: seq<Byte>)
    requires |tmp| == 4 && tmp[0] == 0
    ensures Scanned([], false, 0, tmp, 0)
  {
    assert NumeralValue([], DecDigits) == 0;
  }

  /** A one-digit field denotes that digit. */
  lemma {:induction false} SingleDigit(f: string)
    requires |f| == 1 && Over(f, DecDigits)
    ensures NumeralValue(f, DecDigits) == DigitOf(f[0], DecDigits)
    ensures NumeralValue(f, DecDigits) == 0 <==> f[0] == '0'
  {
    assert f[..0] == [];
    DecimalTable();
    DigitOfIndex(DecDigits, 0);
  }

  /** A digit extends the open field: the scanner rejects a digit after a
      lone "0" and a value above 255, and either way it is right to. */
  lemma {:induction false} ScanDigit(p: string, sawDigit: bool, octets: nat, tmp: seq<Byte>, tp: nat, c: char)
    requires Scanned(p, sawDigit, octets, tmp, tp) && c in DecDigits
    ensures var v := tmp[tp] * 10 + DigitOf(c, DecDigits);
      if (sawDigit && tmp[tp] == 0) || v > 255 then !Viable(p + [c])
      else
        && octets + (if sawDigit then 0 else 1) <= 4
        && Scanned(p + [c], true, octets + (if sawDigit then 0 else 1), tmp[tp := v], tp)
  {
    var f, f' := Split(p, '.'), Split(p + [c], '.');
    OpenField(p, c);
    DigitStep(f, sawDigit, octets, tmp, tp, f', c);
  }

  /** The same on the fields before and after the digit. */
  lemma {:induction false} DigitStep(f: seq<string>, sawDigit: bool, octets: nat, tmp: seq<Byte>, tp: nat, f': seq<string>, c: char)
    requires ScanState(f, sawDigit, octets, tmp, tp) && c in DecDigits
    requires |f'| == |f| && f'[|f| - 1] == f[|f| - 1] + [c]
    requires forall j :: 0 <= j < |f| - 1 ==> f'[j] == f[j]
    ensures var v := tmp[tp] * 10 + DigitOf(c, DecDigits);
      if (sawDigit && tmp[tp] == 0) || v > 255 then !OctetPrefix(f'[|f'| - 1])
      else
        && octets + (if sawDigit then 0 else 1) <= 4
        && ScanState(f', true, octets + (if sawDigit then 0 else 1), tmp[tp := v], tp)
  {
    OpenState(f, sawDigit, octets, tmp, tp);
    OpenFieldDigit(f[tp], c);
    var v := tmp[tp] * 10 + DigitOf(c, DecDigits);
    if !((sawDigit && tmp[tp] == 0) || v > 255) {
      ExtendOpen(f, sawDigit, octets, tmp, tp, f', v);
    }
  }

  /** A character other than '.' extends the last field. */
  lemma {:induction false} OpenField(p: string, c: char)
    requires c != '.'
    ensures var f, f' := Split(p, '.'), Split(p + [c], '.');
      && |f'| == |f|
      && f'[|f| - 1] == f[|f| - 1] + [c]
      && forall j :: 0 <= j < |f| - 1 ==> f'[j] == f[j]
  {
    SplitSnoc(p, c, '.');
  }

  /** A '.' closes the last field and opens an empty one. */
  lemma {:induction false} CloseField(p: string)
    ensures var f, f' := Split(p, '.'), Split(p + ['.'], '.');
      && |f'| == |f| + 1
      && f'[|f|] == []
      && forall j :: 0 <= j < |f| ==> f'[j] == f[j]
  {
    SplitSnoc(p, '.', '.');
  }

  /** What the scan state says of the open field. */
  lemma {:induction false} OpenState(f: seq<string>, sawDigit: bool, octets: nat, tmp: seq<Byte>, tp: nat)
    requires ScanState(f, sawDigit, octets, tmp, tp)
    ensures |tmp| == 4 && 1 <= |f| <= 4 && tp == |f| - 1
    ensures sawDigit <==> f[tp] != []
    ensures octets == if sawDigit then |f| else |f| - 1
    ensures Over(f[tp], DecDigits) && OctetPrefix(f[tp])
    ensures tmp[tp] == NumeralValue(f[tp], DecDigits)
  {
  }

  /** The value of an octet prefix with one more digit, and whether the
      longer field still begins an octet. */
  lemma {:induction false} OpenFieldDigit(f: string, c: char)
    requires Over(f, DecDigits) && OctetPrefix(f) && c in DecDigits
    ensures var g, v := f + [c], NumeralValue(f, DecDigits) * 10 + DigitOf(c, DecDigits);
      && Over(g, DecDigits) && NumeralValue(g, DecDigits) == v
      && (OctetPrefix(g) <==> v <= 255 && (f == [] || NumeralValue(f, DecDigits) != 0))
  {
    DecimalTable();
    NumeralValueSnoc(f, c, DecDigits);
    if |f| == 1 {
      SingleDigit(f);
    } else if |f| > 1 {
      LeadingDigitPositive(f, DecDigits);
    }
  }

  /** The open field grown by a digit, still an octet prefix, with its new value. */
  lemma {:induction false} ExtendOpen(f: seq<string>, sawDigit: bool, octets: nat, tmp: seq<Byte>, tp: nat, f': seq<string>, v: nat)
    requires ScanState(f, sawDigit, octets, tmp, tp)
    requires |f'| == |f| && forall j :: 0 <= j < tp ==> f'[j] == f[j]
    requires f'[tp] != [] && Over(f'[tp], DecDigits) && OctetPrefix(f'[tp])
    requires v == NumeralValue(f'[tp], DecDigits)
    ensures v <= 255
    ensures octets + (if sawDigit then 0 else 1) <= 4
    ensures ScanState(f', true, octets + (if sawDigit then 0 else 1), tmp[tp := v], tp)
  {
    var tmp' := tmp[tp := v];
    forall j | 0 <= j < tp
      ensures ValidOctet(f'[j]) && tmp'[j] == NumeralValue(f'[j], DecDigits)
    {
      assert f'[j] == f[j] && ValidOctet(f[j]);
    }
  }

  /** A '.' closes the open field: the scanner rejects it when the field is
      empty or a fifth would open, and either way it is right to. */
  lemma {:induction false} ScanDot(p: string, sawDigit: bool, octets: nat, tmp: seq<Byte>, tp: nat)
    requires Scanned(p, sawDigit, octets, tmp, tp)
    ensures !sawDigit || octets == 4 ==> !Viable(p + ['.'])
    ensures sawDigit && octets < 4 ==>
      tp + 1 < 4 && Scanned(p + ['.'], false, octets, tmp[tp + 1 := 0], tp + 1)
  {
    var f := Split(p, '.');
    CloseField(p);
    OpenState(f, sawDigit, octets, tmp, tp);
    if !sawDigit {
      assert !ValidOctet(Split(p + ['.'], '.')[tp]);
    } else if octets < 4 {
      CloseOpen(f, octets, tmp, tp, Split(p + ['.'], '.'));
    }
  }

  /** A non-empty open field closed by '.', and an empty one opened. */
  lemma {:induction false} CloseOpen(f: seq<string>, octets: nat, tmp: seq<Byte>, tp: nat, f': seq<string>)
    requires ScanState(f, true, octets, tmp, tp) && octets < 4
    requires |f'| == |f| + 1 && f'[|f|] == [] && forall j :: 0 <= j < |f| ==> f'[j] == f[j]
    ensures tp + 1 < 4 && ScanState(f', false, octets, tmp[tp + 1 := 0], tp + 1)
  {
    ClosedValid(f, octets, tmp, tp);
    var tmp' := tmp[tp + 1 := 0];
    forall j | 0 <= j < tp + 1
      ensures ValidOctet(f'[j]) && tmp'[j] == NumeralValue(f'[j], DecDigits)
    {
      assert f'[j] == f[j];
    }
    assert NumeralValue(f'[tp + 1], DecDigits) == 0;
  }

  /** A non-empty open field is an accepted octet once closed. */
  lemma {:induction false} ClosedValid(f: seq<string>, octets: nat, tmp: seq<Byte>, tp: nat)
    requires ScanState(f, true, octets, tmp, tp)
    ensures ValidOctet(f[tp]) && forall j :: 0 <= j <= tp ==> ValidOctet(f[j]) && tmp[j] == NumeralValue(f[j], DecDigits)
  {
    DecimalTable();
    assert Over(f[tp], DecDigits) && ValidOctet(f[tp]);
  }

  /** Any other character can be in no field of a dotted quad. */
  lemma {:induction false} ScanOther(p: string, sawDigit: bool, octets: nat, tmp: seq<Byte>, tp: nat, c: char)
    requires Scanned(p, sawDigit, octets, tmp, tp) && c !in DecDigits && c != '.'
    ensures !Viable(p + [c])
  {
    var f := Split(p, '.');
    OpenField(p, c);
    var last := f[|f| - 1] + [c];
    assert last[|last| - 1] == c;
  }

  /** At the end of the text: four fields begun with a digit are exactly a
      dotted quad, and `tmp` holds its octets. */
  lemma {:induction false} ScanEnd(t: string, sawDigit: bool, octets: nat, tmp: seq<Byte>, tp: nat)
    requires Scanned(t, sawDigit, octets, tmp, tp)
    ensures octets <= 4
    ensures octets < 4 ==> ParseQuad(t).None?
    ensures octets == 4 ==> ParseQuad(t) == Some(tmp)
  {
    if octets == 4 {
      ScanComplete(t, sawDigit, octets, tmp, tp);
    } else {
      ScanIncomplete(t, sawDigit, octets, tmp, tp);
    }
  }

  lemma {:induction false} ScanComplete(t: string, sawDigit: bool, octets: nat, tmp: seq<Byte>, tp: nat)
    requires Scanned(t, sawDigit, octets, tmp, tp) && octets == 4
    ensures ParseQuad(t) == Some(tmp)
  {
    CompleteFields(Split(t, '.'), sawDigit, tmp, tp);
  }

  lemma {:induction false} CompleteFields(f: seq<string>, sawDigit: bool, tmp: seq<Byte>, tp: nat)
    requires ScanState(f, sawDigit, 4, tmp, tp)
    ensures |f| == 4 && ValidOctet(f[0]) && ValidOctet(f[1]) && ValidOctet(f[2]) && ValidOctet(f[3])
    ensures tmp == [NumeralValue(f[0], DecDigits), NumeralValue(f[1], DecDigits),
                    NumeralValue(f[2], DecDigits), NumeralValue(f[3], DecDigits)]
  {
    CompleteValid(f, sawDigit, tmp, tp);
    var v := [NumeralValue(f[0], DecDigits), NumeralValue(f[1], DecDigits),
              NumeralValue(f[2], DecDigits), NumeralValue(f[3], DecDigits)];
    forall j | 0 <= j < 4
      ensures tmp[j] == v[j]
    {
      FieldValue(f, sawDigit, tmp, tp, j);
    }
  }

  lemma {:induction false} CompleteValid(f: seq<string>, sawDigit: bool, tmp: seq<Byte>, tp: nat)
    requires ScanState(f, sawDigit, 4, tmp, tp)
    ensures |f| == 4 && tp == 3
    ensures ValidOctet(f[0]) && ValidOctet(f[1]) && ValidOctet(f[2]) && ValidOctet(f[3])
    ensures Over(f[0], DecDigits) && Over(f[1], DecDigits) && Over(f[2], DecDigits) && Over(f[3], DecDigits)
  {
    assert ValidOctet(f[3]);
  }

  lemma {:induction false} FieldValue(f: seq<string>, sawDigit: bool, tmp: seq<Byte>, tp: nat, j: nat)
    requires ScanState(f, sawDigit, 4, tmp, tp) && j < 4
    ensures |f| == 4 && Over(f[j], DecDigits) && tmp[j] == NumeralValue(f[j], DecDigits)
  {
  }

  lemma {:induction false} ScanIncomplete(t: string, sawDigit: bool, octets: nat, tmp: seq<Byte>, tp: nat)
    requires Scanned(t, sawDigit, octets, tmp, tp) && octets != 4
    ensures octets < 4 && ParseQuad(t).None?
  {
    IncompleteFields(Split(t, '.'), sawDigit, octets, tmp, tp);
  }

  lemma {:induction false} IncompleteFields(f: seq<string>, sawDigit: bool, octets: nat, tmp: seq<Byte>, tp: nat)
    requires ScanState(f, sawDigit, octets, tmp, tp) && octets != 4
    ensures octets < 4 && (|f| != 4 || !ValidOctet(f[3]))
  {
  }
}
