/** The IPv6 text `compat::inet_ntop_v6` prints: the eight 16-bit groups in
    lowercase hexadecimal without leading zeros, joined by ':', where the
    FIRST run of three or more zero groups that starts at group 0 to 5 is
    replaced, together with every zero group that follows it, by "::".
    This is a form of section 2.2 of RFC 4291, but not the canonical form of
    section 4.2.3 of RFC 5952, which shortens the longest run (of two or
    more groups). */
module Ipv6Text {
  import opened Options
  import opened Numerals
  import opened Strings

  /** The eight groups of a 16-byte address, each from two bytes in network order. */
  function Groups(a: seq<Byte>): (g: seq<nat>)
    requires |a| == 16
    ensures |g| == 8
  {
    seq(8, k requires 0 <= k < 8 => (a[2 * k] as nat) * 0x100 + a[2 * k + 1] as nat)
  }

  /** The hexadecimal numeral of a group. */
  function Hex(v: nat): string {
    Numeral(v, HexDigits)
  }

  /** A group is zero exactly when both its bytes are. */
  lemma {:induction false} GroupBytes(a: seq<Byte>, k: nat)
    requires |a| == 16 && k < 8
    ensures Groups(a)[k] == 0 <==> a[2 * k] == 0 && a[2 * k + 1] == 0
  {
  }

  /** Groups i, i + 1 and i + 2 are all zero. */
  predicate ZeroTriple(g: seq<nat>, i: nat)
    requires i + 3 <= |g|
  {
    g[i] == 0 && g[i + 1] == 0 && g[i + 2] == 0
  }

  /** Three zero groups are six zero bytes. */
  lemma {:induction false} ZeroTripleBytes(a: seq<Byte>, i: nat)
    requires |a| == 16 && i <= 5
    ensures ZeroTriple(Groups(a), i) <==>
      a[2 * i] == 0 && a[2 * i + 1] == 0 && a[2 * i + 2] == 0 &&
      a[2 * i + 3] == 0 && a[2 * i + 4] == 0 && a[2 * i + 5] == 0
  {
    GroupBytes(a, i);
    GroupBytes(a, i + 1);
    GroupBytes(a, i + 2);
  }

  /** The first index from `from` to 5 that starts three zero groups. */
  function FirstRun(g: seq<nat>, from: nat): (r: Option<nat>)
    requires |g| == 8
    ensures r.Some? ==> from <= r.value <= 5 && ZeroTriple(g, r.value)
    ensures r.Some? ==> forall i :: from <= i < r.value ==> !ZeroTriple(g, i)
    ensures r.None? ==> forall i :: from <= i <= 5 ==> !ZeroTriple(g, i)
    decreases 6 - from
  {
    if from > 5 then None
    else if ZeroTriple(g, from) then Some(from)
    else FirstRun(g, from + 1)
  }

  /** The end of the run of zero groups starting at `i`: the first non-zero
      group at or after `i`, or 8. */
  function RunEnd(g: seq<nat>, i: nat): (e: nat)
    requires |g| == 8 && i <= 8
    ensures i <= e <= 8
    ensures forall k :: i <= k < e ==> g[k] == 0
    ensures e < 8 ==> g[e] != 0
    decreases 8 - i
  {
    if i == 8 || g[i] != 0 then i else RunEnd(g, i + 1)
  }

  /** The numerals of groups lo .. hi - 1. */
  function HexGroups(g: seq<nat>, lo: nat, hi: nat): (p: seq<string>)
    requires lo <= hi <= |g|
    ensures |p| == hi - lo
  {
    seq(hi - lo, k requires 0 <= k < hi - lo => Hex(g[lo + k]))
  }

  /** The text printed for a 16-byte address. */
  function V6Text(a: seq<Byte>): string
    requires |a| == 16
  {
    var g := Groups(a);
    match FirstRun(g, 0)
    case None => Join(HexGroups(g, 0, 8), ':')
    case Some(i) => Join(HexGroups(g, 0, i), ':') + "::" + Join(HexGroups(g, RunEnd(g, i), 8), ':')
  }

  /** What the printer emits for group k on its own: the numeral, then ':'
      unless it is the last group. */
  function Emit(g: seq<nat>, k: nat): string
    requires k < |g| == 8
  {
    Hex(g[k]) + (if k != 7 then ":" else "")
  }

  /** Everything emitted for groups lo .. hi - 1, in order. */
  function Emitted(g: seq<nat>, lo: nat, hi: nat): string
    requires lo <= hi <= |g| == 8
    decreases hi - lo
  {
    if hi == lo then [] else Emitted(g, lo, hi - 1) + Emit(g, hi - 1)
  }

  /** Emitting groups one by one, each followed by ':' except the last
      group of the address, gives them joined by ':', plus a trailing ':'
      when the stretch stops short of group 7. */
  lemma {:induction false} EmittedJoin(g: seq<nat>, lo: nat, hi: nat)
    requires lo < hi <= |g| == 8
    ensures Emitted(g, lo, hi) == Join(HexGroups(g, lo, hi), ':') + (if hi < 8 then ":" else "")
    decreases hi - lo
  {
    if hi > lo + 1 {
      EmittedJoin(g, lo, hi - 1);
      assert HexGroups(g, lo, hi) == HexGroups(g, lo, hi - 1) + [Hex(g[hi - 1])];
      JoinSnoc(HexGroups(g, lo, hi - 1), Hex(g[hi - 1]), ':');
    } else {
      assert HexGroups(g, lo, hi) == [Hex(g[lo])];
    }
  }

  /** What the printer has written once a run is compressed: "::" for a run
      at the start, else the groups before it (each with its ':') and one more ':'. */
  function CompressedHead(g: seq<nat>, z: nat): string
    requires z < |g| == 8
  {
    if z == 0 then "::" else Emitted(g, 0, z) + ":"
  }

  /** The text is what a printer writes that goes through the groups in
      order, emitting each with its ':', but on reaching the first run
      writes "::" (or a single ':' after the ':' already written) and
      resumes after the run. */
  lemma {:induction false} PrintedInOrder(a: seq<Byte>)
    requires |a| == 16
    ensures var g := Groups(a);
      FirstRun(g, 0).None? ==> V6Text(a) == Emitted(g, 0, 8)
    ensures var g := Groups(a);
      FirstRun(g, 0).Some? ==> var z := FirstRun(g, 0).value;
        V6Text(a) == CompressedHead(g, z) + Emitted(g, RunEnd(g, z), 8)
  {
    var g := Groups(a);
    match FirstRun(g, 0)
    case None =>
      EmittedJoin(g, 0, 8);
    case Some(z) =>
      HeadJoined(g, z);
      TailJoined(g, RunEnd(g, z));
  }

  /** The head written up to a run at `z` is the groups before it joined by ':', then "::". */
  lemma {:induction false} HeadJoined(g: seq<nat>, z: nat)
    requires z < |g| == 8
    ensures CompressedHead(g, z) == Join(HexGroups(g, 0, z), ':') + "::"
  {
    if z > 0 {
      EmittedJoin(g, 0, z);
    } else {
      assert Join(HexGroups(g, 0, z), ':') == [];
    }
  }

  /** The groups from `e` to the end, emitted, are those groups joined by ':'. */
  lemma {:induction false} TailJoined(g: seq<nat>, e: nat)
    requires e <= |g| == 8
    ensures Emitted(g, e, 8) == Join(HexGroups(g, e, 8), ':')
  {
    if e < 8 {
      EmittedJoin(g, e, 8);
    } else {
      assert Join(HexGroups(g, e, 8), ':') == [];
    }
  }

  /** No run of three zero groups starts before group `i`. */
  predicate NoRunBefore(g: seq<nat>, i: nat)
    requires |g| == 8
  {
    forall k :: 0 <= k < i && k <= 5 ==> !ZeroTriple(g, k)
  }

  /** `out` is what the printer has written on reaching group `i`: before
      compressing, every group so far with its ':'; after compressing the
      first run, which starts at `z` and ends at `e`, the head written up to
      the run and the groups from `e` on. */
  predicate PrintedUpTo(g: seq<nat>, i: nat, compressed: bool, z: nat, e: nat, out: string)
    requires |g| == 8 && i <= 8
  {
    if !compressed then NoRunBefore(g, i) && out == Emitted(g, 0, i)
    else
      && z <= 5 && FirstRun(g, 0) == Some(z) && e == RunEnd(g, z) && e <= i
      && out == CompressedHead(g, z) + Emitted(g, e, i)
  }

  /** Reaching the first run: the printer writes ':' (two at the start of
      the address) and resumes after the run, which also ends three groups on. */
  lemma {:induction false} StartRun(g: seq<nat>, i: nat, z: nat, e: nat, out: string)
    requires |g| == 8 && i <= 5 && ZeroTriple(g, i)
    requires PrintedUpTo(g, i, false, z, e, out)
    ensures RunEnd(g, i + 3) == RunEnd(g, i)
    ensures var e := RunEnd(g, i);
      PrintedUpTo(g, e, true, i, e, out + (if i == 0 then ":" else "") + ":")
  {
    assert FirstRun(g, 0) == Some(i);
    assert RunEnd(g, i) == RunEnd(g, i + 1) == RunEnd(g, i + 2) == RunEnd(g, i + 3);
    var e := RunEnd(g, i);
    assert Emitted(g, e, e) == [];
    if i == 0 {
      assert out == [];
    }
  }

  /** Any other group is emitted with its ':'. */
  lemma {:induction false} NextGroup(g: seq<nat>, i: nat, compressed: bool, z: nat, e: nat, out: string)
    requires |g| == 8 && i < 8
    requires PrintedUpTo(g, i, compressed, z, e, out)
    requires !compressed && i <= 5 ==> !ZeroTriple(g, i)
    ensures PrintedUpTo(g, i + 1, compressed, z, e, out + Emit(g, i))
  {
    if compressed {
      NextGroupAfterRun(g, i, z, e, out);
    } else {
      assert NoRunBefore(g, i + 1);
    }
  }

  lemma {:induction false} NextGroupAfterRun(g: seq<nat>, i: nat, z: nat, e: nat, out: string)
    requires |g| == 8 && z < 8 && e <= i < 8
    requires out == CompressedHead(g, z) + Emitted(g, e, i)
    ensures out + Emit(g, i) == CompressedHead(g, z) + Emitted(g, e, i + 1)
  {
    assert Emitted(g, e, i + 1) == Emitted(g, e, i) + Emit(g, i);
    AppendAssoc(CompressedHead(g, z), Emitted(g, e, i), Emit(g, i));
  }

  /** Past the last group, the printer has written the whole text. */
  lemma {:induction false} PrintedAll(a: seq<Byte>, compressed: bool, z: nat, e: nat, out: string)
    requires |a| == 16 && PrintedUpTo(Groups(a), 8, compressed, z, e, out)
    ensures out == V6Text(a)
  {
    var g := Groups(a);
    PrintedInOrder(a);
  }

  /** Every group prints as a canonical lowercase hexadecimal numeral of
      its value: at least one digit, no leading zero, no ':'. */
  lemma {:induction false} GroupNumeral(v: nat)
    ensures Canonical(Hex(v), HexDigits) && NumeralValue(Hex(v), HexDigits) == v
    ensures Free(Hex(v), ':')
  {
    HexTable();
    DigitRowsSpelled();
    NumeralCanonical(v, HexDigits);
    NumeralAvoids(v, HexDigits, ':');
  }

  /** Groups lo .. hi - 1 joined by ':' have no "::" and neither begin nor
      end with ':'. */
  lemma {:induction false} HexGroupsShape(g: seq<nat>, lo: nat, hi: nat)
    requires lo < hi <= |g|
    ensures var j := Join(HexGroups(g, lo, hi), ':');
      j != [] && j[0] != ':' && j[|j| - 1] != ':' && NoDoubled(j, ':')
  {
    var p := HexGroups(g, lo, hi);
    forall k | 0 <= k < |p|
      ensures p[k] != [] && Free(p[k], ':')
    {
      GroupNumeral(g[lo + k]);
    }
    JoinShape(p, ':');
  }

  /** "::" marks the compressed run and nothing else: without a run the
      text never has two ':' in a row; with one, the only two in a row come
      right after the groups before the run. */
  lemma {:induction false} DoubleColon(a: seq<Byte>)
    requires |a| == 16
    ensures FirstRun(Groups(a), 0).None? ==> NoDoubled(V6Text(a), ':')
    ensures FirstRun(Groups(a), 0).Some? ==>
      var t, h := V6Text(a), Join(HexGroups(Groups(a), 0, FirstRun(Groups(a), 0).value), ':');
      && h <= t
      && forall k :: 0 <= k < |t| - 1 ==> (t[k] == ':' && t[k + 1] == ':' <==> k == |h|)
  {
    var g := Groups(a);
    match FirstRun(g, 0)
    case None =>
      HexGroupsShape(g, 0, 8);
    case Some(z) =>
      var e := RunEnd(g, z);
      var x, y := Join(HexGroups(g, 0, z), ':'), Join(HexGroups(g, e, 8), ':');
      if z > 0 {
        HexGroupsShape(g, 0, z);
      } else {
        assert x == [];
      }
      if e < 8 {
        HexGroupsShape(g, e, 8);
      } else {
        assert y == [];
      }
      assert x + "::" + y == x + [':', ':'] + y;
      DoubledOnlyBetween(x, y, ':');
  }

  /** The first run is compressed even when a longer one follows: in
      0:0:0:1:0:0:0:0 the run of three at the start is shortened, not the
      run of four at the end (RFC 5952 would print "0:0:0:1::"). */
  lemma {:induction false} FirstRunNotLongest()
    ensures V6Text([0, 0, 0, 0, 0, 0, 0, 1, 0, 0, 0, 0, 0, 0, 0, 0]) == "::1:0:0:0:0"
  {
    var a: seq<Byte> := [0, 0, 0, 0, 0, 0, 0, 1, 0, 0, 0, 0, 0, 0, 0, 0];
    var g := Groups(a);
    ExampleRun(a);
    assert HexGroups(g, 3, 8) == [Hex(1), Hex(0), Hex(0), Hex(0), Hex(0)];
    assert HexGroups(g, 0, 0) == [];
    FiveJoined();
    assert V6Text(a) == [] + "::" + "1:0:0:0:0";
  }

  lemma {:induction false} ExampleRun(a: seq<Byte>)
    requires a == [0, 0, 0, 0, 0, 0, 0, 1, 0, 0, 0, 0, 0, 0, 0, 0]
    ensures Groups(a) == [0, 0, 0, 1, 0, 0, 0, 0]
    ensures FirstRun(Groups(a), 0) == Some(0) && RunEnd(Groups(a), 0) == 3
  {
    var g := Groups(a);
    assert g == [0, 0, 0, 1, 0, 0, 0, 0];
    assert FirstRun(g, 0) == Some(0);
    assert RunEnd(g, 0) == 3;
  }

  lemma {:induction false} FiveJoined()
    ensures Join([Hex(1), Hex(0), Hex(0), Hex(0), Hex(0)], ':') == "1:0:0:0:0"
  {
    DigitRowsSpelled();
    assert Hex(0) == "0" && Hex(1) == "1";
    var p1, p2, p3, p4 := ["1"], ["1", "0"], ["1", "0", "0"], ["1", "0", "0", "0"];
    assert p2 == p1 + ["0"] && p3 == p2 + ["0"] && p4 == p3 + ["0"] && p4 + ["0"] == ["1", "0", "0", "0", "0"];
    JoinSnoc(p1, "0", ':');
    JoinSnoc(p2, "0", ':');
    JoinSnoc(p3, "0", ':');
    JoinSnoc(p4, "0", ':');
  }
}
