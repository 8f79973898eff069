/** The output buffer of the printers, written front to back through a
    moving pointer (`*dst++ = c`). */
module OutBuffer {

  /** The first `d` cells of `dst` hold `text` and every later cell still
      holds what it held before printing started (`orig`). */
  predicate Written(dst: array<char>, d: nat, text: string, orig: seq<char>)
    reads dst
  {
    && d <= dst.Length == |orig|
    && dst[..d] == text
    && forall j :: d <= j < dst.Length ==> dst[j] == orig[j]
  }

  /** `*dst++ = c`: the text grows by `c` and nothing else changes. */
  method Put(dst: array<char>, d: nat, c: char, ghost text: string, ghost orig: seq<char>)
    requires Written(dst, d, text, orig) && d < dst.Length
    modifies dst
    ensures Written(dst, d + 1, text + [c], orig)
  {
    dst[d] := c;
    assert dst[..d + 1] == dst[..d] + [c];
  }

  /** `*dst++ = c` in the middle of writing a piece `w` of the text. */
  method PutPiece(dst: array<char>, d: nat, c: char, ghost text: string, ghost w: string, ghost orig: seq<char>)
    requires Written(dst, d, text + w, orig) && d < dst.Length
    modifies dst
    ensures Written(dst, d + 1, text + (w + [c]), orig)
  {
    Put(dst, d, c, text + w, orig);
    assert (text + w) + [c] == text + (w + [c]);
  }

  /** A text and its NUL written: past them the buffer is as it was. */
  lemma {:induction false} Terminated(dst: array<char>, text: string, orig: seq<char>)
    requires Written(dst, |text| + 1, text + ['\0'], orig)
    ensures dst[..|text| + 1] == text + ['\0']
    ensures forall j :: |text| < j < dst.Length ==> dst[j] == orig[j]
  {
  }
}
