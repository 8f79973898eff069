/** `namespace compat` of src/xxsocket.cpp: the portable `inet_ntop` and
    `inet_pton`. Addresses are byte sequences in network order; the output
    buffer of the printers is an array of characters of which the caller
    vouches for the first `size`, and the output of `inet_pton4` an array of
    at least four bytes. The C functions report failure through a NULL
    result and `errno`; here the failure carries the `errno` value. */
module Compat {
  import opened Options
  import opened Numerals
  import opened Strings
  import opened DottedQuad
  import opened Ipv6Text
  import opened OutBuffer
  import opened QuadScan

  /** The address families, with their Linux values. */
  const AfInet: int := 2
  const AfInet6: int := 10

  /** Buffer sizes that hold the longest text of each family and its NUL. */
  const InetAddrStrLen: nat := 16
  const Inet6AddrStrLen: nat := 46

  datatype Errno = ENOSPC | EAFNOSUPPORT

  /** What `inet_ntop` returns: the destination buffer, or NULL with `errno` set. */
  datatype NtopResult = Printed | Null(errno: Errno)

  /** The 32-bit host-order value `ntohl(addr->s_addr)` of four network-order bytes. */
  function HostOrder(x: seq<Byte>): (a: nat)
    requires |x| == 4
    ensures a < 0x1_0000_0000
    ensures a / 0x100_0000 == x[0]
  {
    (x[0] as nat) * 0x100_0000 + (x[1] as nat) * 0x1_0000 + (x[2] as nat) * 0x100 + x[3] as nat
  }

  /** 256 to the power `k`, so that `a >> (8 * k)` is `a / Pow256(k)`. */
  function Pow256(k: nat): (p: nat)
    ensures p >= 1
  {
    if k == 0 then 1 else 0x100 * Pow256(k - 1)
  }

  /** `(a >> (24 - i * 8)) & 0xFF`, that is `(a / 256^(3 - i)) % 256`, is byte
      `i` of the address: the printer goes most significant byte first. */
  lemma {:induction false} OctetOfHostOrder(x: seq<Byte>, i: nat)
    requires |x| == 4 && i < 4
    ensures (HostOrder(x) / Pow256(3 - i)) % 0x100 == x[i]
  {
    var b0, b1, b2, b3: nat := x[0], x[1], x[2], x[3];
    var a := HostOrder(x);
    if i == 0 {
      assert Pow256(3) == 0x100_0000;
      DivMod(b0, 0x100_0000, b1 * 0x1_0000 + b2 * 0x100 + b3);
      DivMod(0, 0x100, b0);
    } else if i == 1 {
      assert Pow256(2) == 0x1_0000;
      assert a == (b0 * 0x100 + b1) * 0x1_0000 + (b2 * 0x100 + b3);
      DivMod(b0 * 0x100 + b1, 0x1_0000, b2 * 0x100 + b3);
      DivMod(b0, 0x100, b1);
    } else if i == 2 {
      assert Pow256(1) == 0x100;
      assert a == (b0 * 0x1_0000 + b1 * 0x100 + b2) * 0x100 + b3;
      DivMod(b0 * 0x1_0000 + b1 * 0x100 + b2, 0x100, b3);
      DivMod(b0 * 0x100 + b1, 0x100, b2);
    } else {
      assert a == (b0 * 0x1_0000 + b1 * 0x100 + b2) * 0x100 + b3;
      DivMod(b0 * 0x1_0000 + b1 * 0x100 + b2, 0x100, b3);
    }
  }

  /** The octets before octet `i`, each printed with the '.' that follows it
      (none after the last). */
  function QuadPrefix(x: seq<Byte>, i: nat): string
    requires |x| == 4 && i <= 4
  {
    if i == 0 then [] else QuadPrefix(x, i - 1) + Dec(x[i - 1]) + (if i - 1 != 3 then "." else "")
  }

  lemma {:induction false} QuadPrefixWhole(x: seq<Byte>)
    requires |x| == 4
    ensures QuadPrefix(x, 4) == QuadText(x)
  {
    var d0, d1, d2, d3 := Dec(x[0]), Dec(x[1]), Dec(x[2]), Dec(x[3]);
    assert QuadPrefix(x, 1) == d0 + ".";
    assert QuadPrefix(x, 2) == d0 + "." + d1 + ".";
    assert QuadPrefix(x, 3) == d0 + "." + d1 + "." + d2 + ".";
    assert QuadPrefix(x, 4) == d0 + "." + d1 + "." + d2 + "." + d3;
    Join4(Dec(x[0]), Dec(x[1]), Dec(x[2]), Dec(x[3]), '.');
  }

  /** The hundreds/tens/units cascade of the printer writes the decimal
      numeral of an octet. */
  lemma {:induction false} OctetDigits(n: Byte)
    ensures Dec(n) == if n / 100 > 0 then [DecDigits[n / 100], DecDigits[n % 100 / 10], DecDigits[n % 100 % 10]]
                      else if n / 10 > 0 then [DecDigits[n / 10], DecDigits[n % 10]]
                      else [DecDigits[n]]
  {
    DecimalTable();
    if n >= 10 {
      NumeralPrefix(n, DecDigits);
      if n >= 100 {
        NumeralPrefix(n / 10, DecDigits);
        var q := n / 100;
        assert n / 10 == q * 10 + n % 100 / 10;
        assert n / 10 / 10 == q && n / 10 % 10 == n % 100 / 10;
        assert n % 10 == n % 100 % 10;
      }
    }
  }

  /** One octet of `compat::inet_ntop_v4`: the hundreds, tens and units
      cascade, which skips leading zero digits but always writes the units. */
  method PutOctet(dst: array<char>, d: nat, n: Byte, ghost text: string, ghost orig: seq<char>)
    returns (e: nat)
    requires Written(dst, d, text, orig) && d + 3 <= dst.Length
    modifies dst
    ensures e <= d + 3 && Written(dst, e, text + Dec(n), orig)
  {
    OctetDigits(n);
    ghost var w: string := [];
    assert text + w == text;
    var m: nat := n;
    var nonZero := false;
    e := d;
    if nonZero || m / 100 > 0 {
      PutPiece(dst, e, DecDigits[m / 100], text, w, orig);
      e, w := e + 1, w + [DecDigits[m / 100]];
      m := m % 100;
      nonZero := true;
    }
    if nonZero || m / 10 > 0 {
      PutPiece(dst, e, DecDigits[m / 10], text, w, orig);
      e, w := e + 1, w + [DecDigits[m / 10]];
      m := m % 10;
      nonZero := true;
    }
    PutPiece(dst, e, DecDigits[m], text, w, orig);
    e, w := e + 1, w + [DecDigits[m]];
    assert w == Dec(n);
  }

  /** `compat::inet_ntop_v4`: with room for 16 characters, writes the dotted
      quad of `src` and a NUL; otherwise fails with ENOSPC and writes nothing. */
  method NtopV4(src: seq<Byte>, dst: array<char>, size: nat) returns (r: NtopResult)
    requires |src| == 4 && size <= dst.Length
    modifies dst
    ensures size < InetAddrStrLen ==> r == Null(ENOSPC) && dst[..] == old(dst[..])
    ensures size >= InetAddrStrLen ==>
      var t := QuadText(src);
      && r == Printed
      && |t| < size
      && dst[..|t| + 1] == t + ['\0']
      && forall j :: |t| < j < dst.Length ==> dst[j] == old(dst[j])
  {
    var a := HostOrder(src);
    if size < InetAddrStrLen {
      return Null(ENOSPC);
    }
    ghost var orig := dst[..];
    var i, d := 0, 0;
    while i < 4
      invariant 0 <= i <= 4 && d + (if i == 4 then 1 else 0) <= 4 * i
      invariant Written(dst, d, QuadPrefix(src, i), orig)
    {
      var n := (a / Pow256(3 - i)) % 0x100;
      OctetOfHostOrder(src, i);
      d := PutOctet(dst, d, n, QuadPrefix(src, i), orig);
      if i != 3 {
        Put(dst, d, '.', QuadPrefix(src, i) + Dec(src[i]), orig);
        d := d + 1;
      }
      i := i + 1;
    }
    QuadPrefixWhole(src);
    Put(dst, d, '\0', QuadText(src), orig);
    Terminated(dst, QuadText(src), orig);
    r := Printed;
  }

  /** The digits the printer writes for the group of bytes `hi`, `lo`: the
      digits of its four nibbles, most significant first, without the
      leading zero ones but never without the last. */
  function NibbleText(hi: Byte, lo: Byte): (t: string)
    ensures 1 <= |t| <= 4
  {
    Nibbled(HexDigits, hi / 16, hi % 16, lo / 16, lo % 16)
  }

  /** The digits of four nibbles in the alphabet `a`, without the leading
      zero ones but never without the last. */
  function Nibbled(a: string, n0: nat, n1: nat, n2: nat, n3: nat): (t: string)
    requires |a| == 16 && n0 < 16 && n1 < 16 && n2 < 16 && n3 < 16
    ensures 1 <= |t| <= 4
  {
    if n0 > 0 then [a[n0], a[n1], a[n2], a[n3]]
    else if n1 > 0 then [a[n1], a[n2], a[n3]]
    else if n2 > 0 then [a[n2], a[n3]]
    else [a[n3]]
  }

  /** The printer's digits for a group are the group's hexadecimal numeral. */
  lemma {:induction false} GroupText(hi: Byte, lo: Byte)
    ensures Hex((hi as nat) * 0x100 + lo as nat) == NibbleText(hi, lo)
  {
    var v: nat := (hi as nat) * 0x100 + lo as nat;
    Nibbles(hi, lo);
    HexTable();
    NibbleDigits(HexDigits, v, hi / 16, hi % 16, lo / 16, lo % 16);
  }

  /** A group is the sum of its four nibbles at their weights. */
  lemma {:induction false} Nibbles(hi: Byte, lo: Byte)
    ensures (hi as nat) * 0x100 + lo as nat == (hi / 16) * 0x1000 + (hi % 16) * 0x100 + (lo / 16) * 0x10 + lo % 16
  {
    DivFacts(hi, 16);
    DivFacts(lo, 16);
  }

  /** The same over any alphabet of sixteen digits. */
  lemma {:induction false} NibbleDigits(a: string, v: nat, n0: nat, n1: nat, n2: nat, n3: nat)
    requires |a| == 16 && n0 < 16 && n1 < 16 && n2 < 16 && n3 < 16
    requires v == n0 * 0x1000 + n1 * 0x100 + n2 * 0x10 + n3
    ensures Numeral(v, a) == Nibbled(a, n0, n1, n2, n3)
  {
    if n0 > 0 {
      FourNibbles(a, v, n0, n1, n2, n3);
    } else if n1 > 0 {
      ThreeNibbles(a, v, n1, n2, n3);
    } else if n2 > 0 {
      Append16(n2, n3, a);
    }
  }

  lemma {:induction false} FourNibbles(a: string, v: nat, n0: nat, n1: nat, n2: nat, n3: nat)
    requires |a| == 16 && 0 < n0 < 16 && n1 < 16 && n2 < 16 && n3 < 16
    requires v == n0 * 0x1000 + n1 * 0x100 + n2 * 0x10 + n3
    ensures Numeral(v, a) == [a[n0], a[n1], a[n2], a[n3]]
  {
    var a1 := n0 * 16 + n1;
    var a2 := a1 * 16 + n2;
    Append16(n0, n1, a);
    Append16(a1, n2, a);
    Append16(a2, n3, a);
  }

  lemma {:induction false} ThreeNibbles(a: string, v: nat, n1: nat, n2: nat, n3: nat)
    requires |a| == 16 && 0 < n1 < 16 && n2 < 16 && n3 < 16
    requires v == n1 * 0x100 + n2 * 0x10 + n3
    ensures Numeral(v, a) == [a[n1], a[n2], a[n3]]
  {
    var a2 := n1 * 16 + n2;
    Append16(n1, n2, a);
    Append16(a2, n3, a);
  }

  lemma {:induction false} Append16(q: nat, r: nat, a: string)
    requires |a| == 16 && 1 <= q && r < 16
    ensures Numeral(q * 16 + r, a) == Numeral(q, a) + [a[r]]
  {
    NumeralAppend(q, r, a);
  }

  /** One group of `compat::inet_ntop_v6`, from its two bytes. */
  method PutGroup(dst: array<char>, d: nat, hi: Byte, lo: Byte, ghost text: string, ghost orig: seq<char>)
    returns (e: nat)
    requires Written(dst, d, text, orig) && d + 4 <= dst.Length
    modifies dst
    ensures e <= d + 4 && Written(dst, e, text + NibbleText(hi, lo), orig)
  {
    var X := HexDigits;
    ghost var w: string := [];
    assert text + w == text;
    var nonZero := false;
    e := d;
    if nonZero || hi / 16 > 0 {
      PutPiece(dst, e, X[hi / 16], text, w, orig);
      e, w := e + 1, w + [X[hi / 16]];
      nonZero := true;
    }
    if nonZero || hi % 16 > 0 {
      PutPiece(dst, e, X[hi % 16], text, w, orig);
      e, w := e + 1, w + [X[hi % 16]];
      nonZero := true;
    }
    if nonZero || lo / 16 > 0 {
      PutPiece(dst, e, X[lo / 16], text, w, orig);
      e, w := e + 1, w + [X[lo / 16]];
      nonZero := true;
    }
    PutPiece(dst, e, X[lo % 16], text, w, orig);
    e, w := e + 1, w + [X[lo % 16]];
    assert w == NibbleText(hi, lo);
  }

  /** The skipping loop of `compat::inet_ntop_v6`: from group `i`, past every
      zero group, to the first non-zero one or the end. */
  method SkipZeroGroups(src: seq<Byte>, i: nat, p: nat) returns (j: nat, q: nat)
    requires |src| == 16 && i <= 8 && p == 2 * i
    ensures j == RunEnd(Groups(src), i) && q == 2 * j
  {
    ghost var g := Groups(src);
    j, q := i, p;
    while j < 8 && src[q] == 0 && src[q + 1] == 0
      invariant i <= j <= 8 && q == 2 * j
      invariant RunEnd(g, i) == RunEnd(g, j)
    {
      GroupBytes(src, j);
      j, q := j + 1, q + 2;
    }
    if j < 8 {
      GroupBytes(src, j);
    }
  }

  lemma {:induction false} GroupHex(src: seq<Byte>, i: nat)
    requires |src| == 16 && i < 8
    ensures Hex(Groups(src)[i]) == NibbleText(src[2 * i], src[2 * i + 1])
  {
    GroupText(src[2 * i], src[2 * i + 1]);
  }

  /** Group `i` of `compat::inet_ntop_v6`, which starts at byte `p`, and the
      ':' after it unless it is the last group. */
  method PutEmit(src: seq<Byte>, dst: array<char>, d: nat, i: nat, p: nat, ghost text: string, ghost orig: seq<char>)
    returns (e: nat)
    requires |src| == 16 && i < 8 && p == 2 * i
    requires Written(dst, d, text, orig) && d + 5 <= dst.Length
    modifies dst
    ensures e <= d + 5 && Written(dst, e, text + Emit(Groups(src), i), orig)
  {
    ghost var g := Groups(src);
    e := PutGroup(dst, d, src[p], src[p + 1], text, orig);
    GroupHex(src, i);
    if i != 7 {
      Put(dst, e, ':', text + Hex(g[i]), orig);
      AppendAssoc(text, Hex(g[i]), ":");
      e := e + 1;
    } else {
      assert Hex(g[i]) + "" == Hex(g[i]);
    }
  }

  /** The compression of `compat::inet_ntop_v6` on reaching the first run
      at group `i`: one ':' (two at the start) and a jump past the run. */
  method Compress(src: seq<Byte>, dst: array<char>, d: nat, i: nat, p: nat,
                  ghost z: nat, ghost e: nat, ghost out: string, ghost orig: seq<char>)
    returns (d': nat, i': nat, p': nat, ghost out': string)
    requires |src| == 16 && i <= 5 && p == 2 * i && d <= 5 * i && Inet6AddrStrLen <= dst.Length
    requires src[p] == 0 && src[p + 1] == 0 && src[p + 2] == 0 && src[p + 3] == 0 && src[p + 4] == 0 && src[p + 5] == 0
    requires PrintedUpTo(Groups(src), i, false, z, e, out)
    requires Written(dst, d, out, orig)
    modifies dst
    ensures i' == RunEnd(Groups(src), i) && p' == 2 * i' && d' <= 5 * i'
    ensures Written(dst, d', out', orig) && PrintedUpTo(Groups(src), i', true, i, i', out')
  {
    ZeroTripleBytes(src, i);
    StartRun(Groups(src), i, z, e, out);
    ghost var marked := out + (if i == 0 then ":" else "") + ":";
    if i == 0 {
      Put(dst, d, ':', out, orig);
      Put(dst, d + 1, ':', out + ":", orig);
      d', out' := d + 2, out + ":" + ":";
    } else {
      Put(dst, d, ':', out, orig);
      d', out' := d + 1, out + ":";
    }
    assert out' == marked;
    i', p' := SkipZeroGroups(src, i + 3, p + 6);
  }

  /** One turn of the loop of `compat::inet_ntop_v6` at group `i`: the
      first run is compressed and skipped, and otherwise the group is
      written with its ':'. */
  method GroupStep(src: seq<Byte>, dst: array<char>, d: nat, i: nat, p: nat, run: bool,
                   ghost z: nat, ghost e: nat, ghost out: string, ghost orig: seq<char>)
    returns (d': nat, i': nat, p': nat, run': bool, ghost z': nat, ghost e': nat, ghost out': string)
    requires |src| == 16 && i < 8 && p == 2 * i && d <= 5 * i && Inet6AddrStrLen <= dst.Length
    requires Written(dst, d, out, orig) && PrintedUpTo(Groups(src), i, run, z, e, out)
    modifies dst
    ensures i < i' <= 8 && p' == 2 * i' && d' <= 5 * i'
    ensures Written(dst, d', out', orig) && PrintedUpTo(Groups(src), i', run', z', e', out')
  {
    if !run && src[p] == 0 && src[p + 1] == 0 && i <= 5
      && src[p + 2] == 0 && src[p + 3] == 0 && src[p + 4] == 0 && src[p + 5] == 0
    {
      d', i', p', out' := CompressRun(src, dst, d, i, p, z, e, out, orig);
      run', z', e' := true, i, RunEnd(Groups(src), i);
    } else {
      d', out' := EmitGroup(src, dst, d, i, p, run, z, e, out, orig);
      p', i', run', z', e' := p + 2, i + 1, run, z, e;
    }
  }

  /** The first run compressed and skipped, then the group after it, if
      any, written with its ':'. */
  method CompressRun(src: seq<Byte>, dst: array<char>, d: nat, i: nat, p: nat,
                     ghost z: nat, ghost e: nat, ghost out: string, ghost orig: seq<char>)
    returns (d': nat, i': nat, p': nat, ghost out': string)
    requires |src| == 16 && i <= 5 && p == 2 * i && d <= 5 * i && Inet6AddrStrLen <= dst.Length
    requires src[p] == 0 && src[p + 1] == 0 && src[p + 2] == 0 && src[p + 3] == 0 && src[p + 4] == 0 && src[p + 5] == 0
    requires Written(dst, d, out, orig) && PrintedUpTo(Groups(src), i, false, z, e, out)
    modifies dst
    ensures i < i' <= 8 && p' == 2 * i' && d' <= 5 * i'
    ensures Written(dst, d', out', orig) && PrintedUpTo(Groups(src), i', true, i, RunEnd(Groups(src), i), out')
  {
    var j;
    d', j, p', out' := Compress(src, dst, d, i, p, z, e, out, orig);
    i' := j;
    if j < 8 {
      d', out' := EmitGroup(src, dst, d', j, p', true, i, j, out', orig);
      p', i' := p' + 2, j + 1;
    }
  }

  /** Group `i` written uncompressed, with its ':'. */
  method EmitGroup(src: seq<Byte>, dst: array<char>, d: nat, i: nat, p: nat, run: bool,
                   ghost z: nat, ghost e: nat, ghost out: string, ghost orig: seq<char>)
    returns (d': nat, ghost out': string)
    requires |src| == 16 && i < 8 && p == 2 * i && d <= 5 * i && Inet6AddrStrLen <= dst.Length
    requires Written(dst, d, out, orig) && PrintedUpTo(Groups(src), i, run, z, e, out)
    requires !run && i <= 5 ==>
      !(src[p] == 0 && src[p + 1] == 0 && src[p + 2] == 0 && src[p + 3] == 0 && src[p + 4] == 0 && src[p + 5] == 0)
    modifies dst
    ensures d' <= 5 * (i + 1)
    ensures Written(dst, d', out', orig) && PrintedUpTo(Groups(src), i + 1, run, z, e, out')
  {
    if !run && i <= 5 {
      ZeroTripleBytes(src, i);
    }
    NextGroup(Groups(src), i, run, z, e, out);
    d' := PutEmit(src, dst, d, i, p, out, orig);
    out' := out + Emit(Groups(src), i);
  }

  /** The loop of `compat::inet_ntop_v6` over the eight groups, which stops
      early when a compressed run reaches the end of the address. */
  method PutGroups(src: seq<Byte>, dst: array<char>, ghost orig: seq<char>)
    returns (d: nat, ghost out: string, ghost compressed: bool, ghost z: nat, ghost e: nat)
    requires |src| == 16 && Inet6AddrStrLen <= dst.Length && Written(dst, 0, [], orig)
    modifies dst
    ensures d <= 40 && Written(dst, d, out, orig) && PrintedUpTo(Groups(src), 8, compressed, z, e, out)
  {
    z, e, out := 0, 0, [];
    var run := false;
    var i: nat, p: nat := 0, 0;
    d := 0;
    while i < 8
      invariant i <= 8 && p == 2 * i && d <= 5 * i
      invariant Written(dst, d, out, orig) && PrintedUpTo(Groups(src), i, run, z, e, out)
    {
      d, i, p, run, z, e, out := GroupStep(src, dst, d, i, p, run, z, e, out, orig);
    }
    compressed := run;
  }

  /** `compat::inet_ntop_v6`: with room for 46 characters, writes the text of
      `src` and a NUL; otherwise fails with ENOSPC and writes nothing. */
  method NtopV6(src: seq<Byte>, dst: array<char>, size: nat) returns (r: NtopResult)
    requires |src| == 16 && size <= dst.Length
    modifies dst
    ensures size < Inet6AddrStrLen ==> r == Null(ENOSPC) && dst[..] == old(dst[..])
    ensures size >= Inet6AddrStrLen ==>
      var t := V6Text(src);
      && r == Printed
      && |t| < size
      && dst[..|t| + 1] == t + ['\0']
      && forall j :: |t| < j < dst.Length ==> dst[j] == old(dst[j])
  {
    if size < Inet6AddrStrLen {
      return Null(ENOSPC);
    }
    ghost var orig := dst[..];
    var d;
    ghost var out, compressed, z, e;
    d, out, compressed, z, e := PutGroups(src, dst, orig);
    PrintedAll(src, compressed, z, e, out);
    Put(dst, d, '\0', out, orig);
    Terminated(dst, out, orig);
    r := Printed;
  }

  /** `compat::inet_ntop`: the printer of the family, or EAFNOSUPPORT. The
      caller passes as many bytes as the family's address has. */
  method Ntop(af: int, src: seq<Byte>, dst: array<char>, size: nat) returns (r: NtopResult)
    requires af == AfInet ==> |src| == 4
    requires af == AfInet6 ==> |src| == 16
    requires size <= dst.Length
    modifies dst
    ensures af != AfInet && af != AfInet6 ==> r == Null(EAFNOSUPPORT) && dst[..] == old(dst[..])
    ensures af == AfInet ==>
      if size < InetAddrStrLen then r == Null(ENOSPC) && dst[..] == old(dst[..])
      else (r == Printed && |QuadText(src)| < size && dst[..|QuadText(src)| + 1] == QuadText(src) + ['\0']
            && forall j :: |QuadText(src)| < j < dst.Length ==> dst[j] == old(dst[j]))
    ensures af == AfInet6 ==>
      if size < Inet6AddrStrLen then r == Null(ENOSPC) && dst[..] == old(dst[..])
      else (r == Printed && |V6Text(src)| < size && dst[..|V6Text(src)| + 1] == V6Text(src) + ['\0']
            && forall j :: |V6Text(src)| < j < dst.Length ==> dst[j] == old(dst[j]))
  {
    if af == AfInet {
      r := NtopV4(src, dst, size);
    } else if af == AfInet6 {
      r := NtopV6(src, dst, size);
    } else {
      r := Null(EAFNOSUPPORT);
    }
  }

  /** The characters of a C string: those before the first NUL, or all of
      them if there is none. */
  function CStr(s: seq<char>): (t: string)
    ensures t <= s && Free(t, '\0')
    ensures |t| < |s| ==> s[|t|] == '\0'
  {
    if s == [] || s[0] == '\0' then []
    else [s[0]] + CStr(s[1..])
  }

  /** A text without NUL written before a NUL reads back as that text. */
  lemma {:induction false} CStrWritten(s: seq<char>, t: string)
    requires Free(t, '\0') && |t| < |s| && s[..|t| + 1] == t + ['\0']
    ensures CStr(s) == t
    decreases |t|
  {
    assert s[0] == (t + ['\0'])[0];
    if t != [] {
      assert s[1..][..|t|] == t[1..] + ['\0'];
      CStrWritten(s[1..], t[1..]);
    }
  }

  /** The dotted quad of an address has no NUL. */
  lemma {:induction false} QuadTextNoNul(x: seq<Byte>)
    requires |x| == 4
    ensures Free(QuadText(x), '\0')
  {
    var p := [Dec(x[0]), Dec(x[1]), Dec(x[2]), Dec(x[3])];
    DecimalTable();
    DigitRowsSpelled();
    forall k | 0 <= k < 4
      ensures Free(p[k], '\0')
    {
      NumeralAvoids(x[k], DecDigits, '\0');
    }
    JoinFree(p, '.', '\0');
  }

  /** Round trip: the C string `inet_ntop_v4` leaves in a buffer is read by
      `inet_pton4` as the address it was printed from. */
  lemma {:induction false} PtonReadsNtop(x: seq<Byte>, s: seq<char>)
    requires |x| == 4 && |QuadText(x)| < |s|
    requires s[..|QuadText(x)| + 1] == QuadText(x) + ['\0']
    ensures ParseQuad(CStr(s)) == Some(x)
  {
    QuadTextNoNul(x);
    CStrWritten(s, QuadText(x));
    ParsePrinted(x);
  }

  /** One character of the loop of `compat::inet_pton4`, with the scan
      state in `tmp` and the other variables. It returns false where the C
      returns 0 from inside the loop, and then no text that begins with the
      part scanned so far is a dotted quad. */
  method ScanChar(ch: char, tmp: array<Byte>, sawDigit: bool, octets: nat, tp: nat, ghost p: string)
    returns (ok: bool, sawDigit': bool, octets': nat, tp': nat)
    requires tmp.Length == 4 && Scanned(p, sawDigit, octets, tmp[..], tp)
    modifies tmp
    ensures ok ==> Scanned(p + [ch], sawDigit', octets', tmp[..], tp')
    ensures !ok ==> !Viable(p + [ch])
  {
    if ch in DecDigits {
      ok, octets' := TakeDigit(ch, tmp, sawDigit, octets, tp, p);
      sawDigit', tp' := true, tp;
    } else if ch == '.' && sawDigit {
      ok, tp' := TakeDot(tmp, octets, tp, p);
      sawDigit', octets' := false, octets;
    } else {
      if ch == '.' {
        ScanDot(p, sawDigit, octets, tmp[..], tp);
      } else {
        ScanOther(p, sawDigit, octets, tmp[..], tp, ch);
      }
      ok, sawDigit', octets', tp' := false, sawDigit, octets, tp;
    }
  }

  /** A digit: refused after a lone "0" or past 255, otherwise the open
      octet's value becomes ten times itself plus the digit. */
  method TakeDigit(ch: char, tmp: array<Byte>, sawDigit: bool, octets: nat, tp: nat, ghost p: string)
    returns (ok: bool, octets': nat)
    requires ch in DecDigits
    requires tmp.Length == 4 && Scanned(p, sawDigit, octets, tmp[..], tp)
    modifies tmp
    ensures ok ==> Scanned(p + [ch], true, octets', tmp[..], tp)
    ensures !ok ==> !Viable(p + [ch])
  {
    var newv := tmp[tp] * 10 + DigitOf(ch, DecDigits);
    ScanDigit(p, sawDigit, octets, tmp[..], tp, ch);
    if sawDigit && tmp[tp] == 0 {
      return false, octets;
    }
    if newv > 255 {
      return false, octets;
    }
    tmp[tp] := newv;
    octets' := octets;
    if !sawDigit {
      octets' := octets + 1;
      if octets' > 4 {
        assert false;
      }
    }
    ok := true;
  }

  /** A '.' after a digit: refused after the fourth octet, otherwise the
      next octet starts at 0. */
  method TakeDot(tmp: array<Byte>, octets: nat, tp: nat, ghost p: string) returns (ok: bool, tp': nat)
    requires tmp.Length == 4 && Scanned(p, true, octets, tmp[..], tp)
    modifies tmp
    ensures ok ==> Scanned(p + ['.'], false, octets, tmp[..], tp')
    ensures !ok ==> !Viable(p + ['.'])
  {
    ScanDot(p, true, octets, tmp[..], tp);
    if octets == 4 {
      return false, tp;
    }
    tp' := tp + 1;
    tmp[tp'] := 0;
    ok := true;
  }

  /** `compat::inet_pton4`: 1 with the four octets in `dst` if the C string
      `src` is a dotted quad, else 0 with `dst` untouched. */
  method Pton4(src: seq<char>, dst: array<Byte>) returns (r: int)
    requires 4 <= dst.Length
    modifies dst
    ensures ParseQuad(CStr(src)).None? ==> r == 0 && dst[..] == old(dst[..])
    ensures ParseQuad(CStr(src)).Some? ==>
      && r == 1
      && dst[..4] == ParseQuad(CStr(src)).value
      && dst[4..] == old(dst[4..])
  {
    var tmp := new Byte[4];
    var ok, sawDigit, octets, tp := ScanText(src, tmp);
    if !ok {
      return 0;
    }
    ScanEnd(CStr(src), sawDigit, octets, tmp[..], tp);
    if octets < 4 {
      return 0;
    }
    Memcpy(dst, tmp);
    return 1;
  }

  /** The scanning loop of `inet_pton4`, over `src` up to its terminating
      NUL: either the whole text is scanned, or a prefix is found that no
      dotted quad begins with. */
  method ScanText(src: seq<char>, tmp: array<Byte>) returns (ok: bool, sawDigit: bool, octets: nat, tp: nat)
    requires tmp.Length == 4
    modifies tmp
    ensures ok ==> Scanned(CStr(src), sawDigit, octets, tmp[..], tp)
    ensures !ok ==> ParseQuad(CStr(src)).None?
  {
    ghost var t := CStr(src);
    sawDigit, octets, tp := false, 0, 0;
    tmp[tp] := 0;
    ScanStart(tmp[..]);
    var k: nat := 0;
    while k < |src| && src[k] != '\0'
      invariant k <= |t|
      invariant Scanned(t[..k], sawDigit, octets, tmp[..], tp)
    {
      CStrNext(src, k);
      ok, sawDigit, octets, tp := ScanChar(src[k], tmp, sawDigit, octets, tp, t[..k]);
      if !ok {
        Rejected(t, k + 1);
        return;
      }
      k := k + 1;
    }
    CStrEnd(src, k);
    ok := true;
  }

  /** A character before the NUL is the next character of the C string. */
  lemma {:induction false} CStrNext(s: seq<char>, k: nat)
    requires k <= |CStr(s)| && k < |s| && s[k] != '\0'
    ensures k < |CStr(s)| && CStr(s)[..k + 1] == CStr(s)[..k] + [s[k]]
  {
    var t := CStr(s);
    assert k < |t| && t[k] == s[k];
    assert t[..k + 1] == t[..k] + [t[k]];
  }

  /** The loop stops at the end of the C string. */
  lemma {:induction false} CStrEnd(s: seq<char>, k: nat)
    requires k <= |CStr(s)| && !(k < |s| && s[k] != '\0')
    ensures CStr(s)[..k] == CStr(s)
  {
    var t := CStr(s);
    assert k == |t|;
  }

  /** `memcpy(dst, tmp, NS_INADDRSZ)`. */
  method Memcpy(dst: array<Byte>, tmp: array<Byte>)
    requires tmp.Length == 4 <= dst.Length && tmp != dst
    modifies dst
    ensures dst[..4] == tmp[..] && dst[4..] == old(dst[4..])
  {
    forall j | 0 <= j < 4 {
      dst[j] := tmp[j];
    }
    assert dst[..4] == tmp[..];
  }

  /** A text with a beginning no dotted quad has is not one. */
  lemma {:induction false} Rejected(t: string, m: nat)
    requires m <= |t| && !Viable(t[..m])
    ensures ParseQuad(t).None?
  {
    if IsQuad(t) {
      QuadPrefixViable(t, m);
    }
  }

  /** `compat::inet_pton`: `inet_pton4` for AF_INET, -1 for a family other
      than AF_INET and AF_INET6. */
  method Pton(af: int, src: seq<char>, dst: array<Byte>) returns (r: int)
    requires af != AfInet6
    requires af == AfInet ==> 4 <= dst.Length
    modifies dst
    ensures af != AfInet ==> r == -1 && dst[..] == old(dst[..])
    ensures af == AfInet ==>
      (r == 1 <==> ParseQuad(CStr(src)).Some?) && (r == 0 <==> ParseQuad(CStr(src)).None?)
    ensures af == AfInet && r == 1 ==> dst[..4] == ParseQuad(CStr(src)).value && dst[4..] == old(dst[4..])
    ensures r != 1 ==> dst[..] == old(dst[..])
  {
    if af == AfInet {
      r := Pton4(src, dst);
    } else {
      r := -1;
    }
  }
}
