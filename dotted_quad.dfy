/** The IPv4 presentation format: four decimal octets joined by '.', each
    without leading zeros, most significant octet first. This is the text
    `compat::inet_ntop_v4` prints and the only text `compat::inet_pton4`
    accepts. */
module DottedQuad {
  import opened Options
  import opened Numerals
  import opened Strings

  /** The decimal numeral of a number, as the printers write it. */
  function Dec(n: nat): string {
    Numeral(n, DecDigits)
  }

  /** The text of a four-octet address. */
  function QuadText(x: seq<Byte>): string
    requires |x| == 4
  {
    Join([Dec(x[0]), Dec(x[1]), Dec(x[2]), Dec(x[3])], '.')
  }

  /** An accepted octet: non-empty decimal digits, no leading zero unless it
      is the single digit "0", and a value of at most 255. */
  predicate ValidOctet(f: string) {
    Canonical(f, DecDigits) && NumeralValue(f, DecDigits) <= 255
  }

  /** Exactly four '.'-separated fields, each a valid octet. */
  predicate IsQuad(s: string) {
    var f := Split(s, '.');
    |f| == 4 && ValidOctet(f[0]) && ValidOctet(f[1]) && ValidOctet(f[2]) && ValidOctet(f[3])
  }

  /** The address a text denotes, if it is a dotted quad. */
  function ParseQuad(s: string): Option<seq<Byte>> {
    if IsQuad(s) then
      var f := Split(s, '.');
      Some([NumeralValue(f[0], DecDigits), NumeralValue(f[1], DecDigits),
            NumeralValue(f[2], DecDigits), NumeralValue(f[3], DecDigits)])
    else None
  }

  /** An octet prints as one to three digits. */
  lemma {:induction false} DecOctetLength(n: Byte)
    ensures 1 <= |Dec(n)| <= 3
  {
    DecimalTable();
    if n >= 10 {
      NumeralPrefix(n, DecDigits);
      if n >= 100 {
        NumeralPrefix(n / 10, DecDigits);
      }
    }
  }

  lemma {:induction false} DecOctetValid(n: Byte)
    ensures ValidOctet(Dec(n)) && NumeralValue(Dec(n), DecDigits) == n
    ensures Free(Dec(n), '.')
  {
    DecimalTable();
    NumeralCanonical(n, DecDigits);
    NumeralAvoids(n, DecDigits, '.');
  }

  /** The printed text is seven to fifteen characters long. */
  lemma {:induction false} QuadTextLength(x: seq<Byte>)
    requires |x| == 4
    ensures 7 <= |QuadText(x)| <= 15
  {
    DecOctetLength(x[0]);
    DecOctetLength(x[1]);
    DecOctetLength(x[2]);
    DecOctetLength(x[3]);
    Join4(Dec(x[0]), Dec(x[1]), Dec(x[2]), Dec(x[3]), '.');
  }

  /** The fields of the printed text are the four octets' numerals. */
  lemma {:induction false} QuadTextFields(x: seq<Byte>)
    requires |x| == 4
    ensures Split(QuadText(x), '.') == [Dec(x[0]), Dec(x[1]), Dec(x[2]), Dec(x[3])]
  {
    var p := [Dec(x[0]), Dec(x[1]), Dec(x[2]), Dec(x[3])];
    forall k | 0 <= k < 4
      ensures Free(p[k], '.')
    {
      DecOctetValid(x[k]);
    }
    SplitJoin(p, '.');
  }

  /** Round trip: parsing the printed text of an address gives the address. */
  lemma {:induction false} ParsePrinted(x: seq<Byte>)
    requires |x| == 4
    ensures ParseQuad(QuadText(x)) == Some(x)
  {
    var p := [Dec(x[0]), Dec(x[1]), Dec(x[2]), Dec(x[3])];
    QuadTextFields(x);
    DecOctetValid(x[0]);
    DecOctetValid(x[1]);
    DecOctetValid(x[2]);
    DecOctetValid(x[3]);
    ParseFields(QuadText(x), p);
    Four(x);
  }

  /** A text whose fields are four octets parses to their values. */
  lemma {:induction false} ParseFields(s: string, p: seq<string>)
    requires Split(s, '.') == p && |p| == 4
    requires ValidOctet(p[0]) && ValidOctet(p[1]) && ValidOctet(p[2]) && ValidOctet(p[3])
    ensures ParseQuad(s) == Some([NumeralValue(p[0], DecDigits), NumeralValue(p[1], DecDigits),
                                  NumeralValue(p[2], DecDigits), NumeralValue(p[3], DecDigits)])
  {
  }

  lemma {:induction false} DecOfValue(f: string)
    requires ValidOctet(f)
    ensures Dec(NumeralValue(f, DecDigits)) == f
  {
    DecimalTable();
    CanonicalNumeral(f, DecDigits);
  }

  /** The numerals of the octets a text denotes are its fields. */
  lemma {:induction false} ParsedFields(s: string)
    requires ParseQuad(s).Some?
    ensures var x := ParseQuad(s).value;
      [Dec(x[0]), Dec(x[1]), Dec(x[2]), Dec(x[3])] == Split(s, '.')
  {
    var f := Split(s, '.');
    var x := ParseQuad(s).value;
    assert Dec(x[0]) == f[0] by { DecOfValue(f[0]); }
    assert Dec(x[1]) == f[1] by { DecOfValue(f[1]); }
    assert Dec(x[2]) == f[2] by { DecOfValue(f[2]); }
    assert Dec(x[3]) == f[3] by { DecOfValue(f[3]); }
    Four(f);
  }

  /** Only the printed text is accepted: a text that parses is exactly the
      text printed for the address it denotes. */
  lemma {:induction false} PrintParsed(s: string)
    requires ParseQuad(s).Some?
    ensures |ParseQuad(s).value| == 4 && QuadText(ParseQuad(s).value) == s
  {
    ParsedFields(s);
    JoinSplit(s, '.');
  }
}
