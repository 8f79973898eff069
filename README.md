# xxsocket: address text codec and descriptor ownership

This project models two parts of `src/xxsocket.cpp` of the yasio networking
library (`purelib::net`) and proves properties of them in Dafny.

1. **The portable address codec in `namespace compat`.**
   - `inet_ntop_v4` prints a 4-byte address as a dotted quad.
   - `inet_ntop_v6` prints a 16-byte address as colon-separated hexadecimal
     groups, with one zero run shortened to `::`.
   - `inet_ntop` picks the printer by address family.
   - `inet_pton4` parses a dotted quad back into four bytes.
   - `inet_pton` picks the parser by address family.

   The printers and the parser are imperative methods over arrays: a
   character buffer for the printers, a byte buffer for the parser. Each is
   proved against a pure definition of the text format:
   - `DottedQuad.QuadText` and `DottedQuad.ParseQuad` define the dotted quad.
   - `Ipv6Text.V6Text` defines the IPv6 text.

   On that format the model proves:
   - both round trips between printing and parsing;
   - the length bounds;
   - where `::` may appear;
   - that a successful parse writes exactly the four octets;
   - that `dst` is left alone on every failure.

2. **Descriptor ownership by an `xxsocket`.** `Sockets.Socket` holds a
   single `fd` field, which is `bad_sock` (`-1`) when no socket is held.
   - `open` asks the kernel for a socket only when none is held.
   - `close` hands the held descriptor to `::closesocket`, at most once.
   - `reopen` closes, then opens.
   - `swap`, which the move constructor and move assignment use, moves a
     handle into a closed object only. No handle is lost or duplicated.
   - `operator=(socket_native_type)` adopts a handle only when closed.
   - `release` gives up the handle without closing it.

   The kernel is the class `Sockets.Kernel`. Its answers to `::socket` are
   a script fixed up front, and it records every request and every closed
   handle. The socket methods' contracts therefore say exactly which
   kernel calls they make.

Files:
- `option.dfy`: the `Option` type.
- `strings.dfy`: splitting at and joining with a separator.
- `numerals.dfy`: positional numerals over a digit alphabet, both the
  decimal and the hexadecimal one.
- `dotted_quad.dfy`: the IPv4 text format.
- `quad_scan.dfy`: the state of the `inet_pton4` scanner, related to the
  text scanned so far.
- `ipv6_text.dfy`: the IPv6 text format and how the printer produces it.
- `out_buffer.dfy`: writing through `*dst++`.
- `compat.dfy`: the C functions themselves.
- `xxsocket.dfy`: the handle class and the kernel.

Behaviour worth knowing:
- **Which zero run `inet_ntop_v6` compresses.** Section 4.2.3 of RFC 5952
  shortens the longest run of two or more zero groups. This code compresses
  the *first* run of at least three zero groups that starts at group 0 to 5,
  together with every zero group that follows it (src/xxsocket.cpp:66-80).
  `Ipv6Text.FirstRunNotLongest` proves that `0:0:0:1:0:0:0:0` prints as
  `::1:0:0:0:0`. A run of exactly two zero groups is never compressed.
- **What a move does to its source.** `swap` moves only into a closed
  object, so move-assigning into an open `xxsocket` changes neither object,
  and the source keeps its handle (src/xxsocket.cpp:381-389).
- **The `++octets > 4` return of `inet_pton4` (src/xxsocket.cpp:190-191)
  can never be taken.** A fifth octet is always refused first, at the `.`
  that would open it (src/xxsocket.cpp:198-199). `Compat.TakeDigit` keeps
  the branch and proves it dead.

## Model

| member | source | states |
|---|---|---|
| Compat.NtopV4 | src/xxsocket.cpp:14-47 | With `size < INET_ADDRSTRLEN` (16): NULL with ENOSPC, and the buffer is untouched. Otherwise the buffer begins with the dotted quad of `src` and a NUL, the text is shorter than `size`, and every cell after the NUL is untouched. |
| Compat.HostOrder | src/xxsocket.cpp:20 | `ntohl(addr->s_addr)` is a 32-bit value whose most significant byte is the first byte of the address. |
| Compat.OctetOfHostOrder | src/xxsocket.cpp:20-28 | `(ntohl(s_addr) >> (24 - 8i)) & 0xFF` is byte `i` of the address in network order, so octets print most significant first. |
| Compat.OctetDigits | src/xxsocket.cpp:29-41 | The hundreds/tens/units cascade yields exactly the decimal numeral of the octet: no leading zero, and always the units digit. |
| Compat.PutOctet | src/xxsocket.cpp:29-41 | Writing one octet appends its decimal numeral (at most three characters) at the write position and changes nothing else. |
| Compat.QuadPrefixWhole | src/xxsocket.cpp:27-44 | The four octets, each followed by '.' except the last, are the dotted quad. |
| DottedQuad.DecOctetLength | src/xxsocket.cpp:29-41 | An octet prints as one to three digits. |
| DottedQuad.DecOctetValid | src/xxsocket.cpp:29-41 | An octet's numeral is an accepted octet field that denotes it and contains no '.'. |
| DottedQuad.QuadTextLength | src/xxsocket.cpp:27-45 | The dotted quad is 7 to 15 characters long, so with its NUL it fits in INET_ADDRSTRLEN. |
| DottedQuad.QuadTextFields | src/xxsocket.cpp:27-44 | The '.'-separated fields of a printed quad are the four octets' numerals. |
| DottedQuad.ParsePrinted | src/xxsocket.cpp:167-212 | Round trip: parsing the text printed for any 4-byte address gives back that address. |
| DottedQuad.PrintParsed | src/xxsocket.cpp:167-212 | The reverse round trip: any text that parses is exactly the text printed for the address it denotes, so leading zeros and other variants are refused. |
| DottedQuad.ParsedFields | src/xxsocket.cpp:178-207 | The fields of an accepted text are the numerals of the octets it denotes. |
| DottedQuad.ParseFields | src/xxsocket.cpp:178-209 | A text whose four '.'-separated fields are accepted octets parses to their four values. |
| DottedQuad.DecOfValue | src/xxsocket.cpp:181-188 | An accepted octet field is the numeral of its own value. |
| Compat.QuadTextNoNul | src/xxsocket.cpp:17-45 | The printed dotted quad contains no NUL. |
| Compat.CStr | src/xxsocket.cpp:178 | The C string read from a buffer is its longest NUL-free prefix, and it ends at the first NUL if there is one. |
| Compat.CStrWritten | src/xxsocket.cpp:178 | A NUL-free text followed by a NUL reads back as exactly that text. |
| Compat.PtonReadsNtop | src/xxsocket.cpp:167-212 | Round trip through the buffer: what `inet_ntop_v4` leaves in a buffer, read by `inet_pton4`, is the address it printed. |
| Compat.NibbleText | src/xxsocket.cpp:86-98 | A group prints as one to four hexadecimal digits. |
| Compat.GroupText | src/xxsocket.cpp:86-98 | The nibble cascade over the group's two bytes yields the group's lowercase hexadecimal numeral, without leading zeros. |
| Compat.NibbleDigits | src/xxsocket.cpp:86-98 | Over any 16-digit alphabet, the numeral of a 16-bit value is its nibbles' digits with the leading zero nibbles dropped, but never the last one. |
| Compat.Append16 | src/xxsocket.cpp:86-98 | A base-16 number with a non-zero quotient prints as its quotient's numeral followed by its last digit. |
| Compat.PutGroup | src/xxsocket.cpp:86-98 | Writing one group appends at most four digits, the group's text, and changes nothing else. |
| Compat.GroupHex | src/xxsocket.cpp:86-98 | Group `i`'s numeral is the digits the cascade writes for bytes `2i` and `2i+1`. |
| Compat.SkipZeroGroups | src/xxsocket.cpp:78-80 | The skipping loop stops at the first non-zero group at or after its start, or at 8. |
| Compat.PutEmit | src/xxsocket.cpp:86-101 | An uncompressed group is written as its numeral, followed by ':' unless it is group 7. |
| Compat.Compress | src/xxsocket.cpp:66-83 | On reaching the first run, the printer writes "::" (or one ':' after the one already written) and resumes past the run's last zero group. |
| Compat.CompressRun | src/xxsocket.cpp:66-101 | Compressing the first run and then writing the group after it, if any, keeps what has been written equal to the text's prefix, with the run recorded as the one compressed. |
| Compat.EmitGroup | src/xxsocket.cpp:86-101 | A group that does not start the first run is written as the text requires, at most five characters, and the prefix invariant moves one group on. |
| Compat.GroupStep | src/xxsocket.cpp:63-102 | One turn of the group loop advances at least one group, stays within five characters per group, and keeps what has been written equal to the text's prefix up to the current group. |
| Compat.PutGroups | src/xxsocket.cpp:63-102 | After the loop, at most 40 characters are written and they are the whole text of the address. |
| Compat.NtopV6 | src/xxsocket.cpp:49-105 | With `size < INET6_ADDRSTRLEN` (46): NULL with ENOSPC, and the buffer is untouched. Otherwise the buffer begins with `V6Text(src)` and a NUL, the text is shorter than `size`, and every cell after the NUL is untouched. |
| Compat.Ntop | src/xxsocket.cpp:107-119 | AF_INET and AF_INET6 behave as their printers: the text and a NUL at the front of the buffer, or ENOSPC with the buffer untouched, and every cell after the NUL untouched. Any other family gives NULL with EAFNOSUPPORT, a distinct error, and writes nothing. |
| Ipv6Text.Groups | src/xxsocket.cpp:55-101 | An address has eight groups, each formed from two bytes in network order. |
| Ipv6Text.GroupBytes | src/xxsocket.cpp:79 | A group is zero exactly when both of its bytes are zero. |
| Ipv6Text.ZeroTripleBytes | src/xxsocket.cpp:66-70 | The printer's six-byte test is "groups i, i+1 and i+2 are zero". |
| Ipv6Text.FirstRun | src/xxsocket.cpp:63-70 | The compressed run starts at the first index from 0 to 5 where three zero groups start, and there is none when no such index exists. |
| Ipv6Text.RunEnd | src/xxsocket.cpp:78-80 | The run absorbs every following zero group, up to the first non-zero group or the end. |
| Ipv6Text.EmittedJoin | src/xxsocket.cpp:86-101 | Groups emitted one by one, each with ':' unless it is group 7, are the groups joined by ':'. |
| Ipv6Text.PrintedInOrder | src/xxsocket.cpp:63-104 | The text equals what a left-to-right printer writes: groups up to the run, "::", then the groups after the run. |
| Ipv6Text.HeadJoined | src/xxsocket.cpp:74-76 | The part written before the run is the earlier groups joined by ':' and then "::"; a run at group 0 gives a leading "::". |
| Ipv6Text.TailJoined | src/xxsocket.cpp:82-101 | The groups after the run are joined by ':'; a run reaching group 7 leaves a trailing "::". |
| Ipv6Text.StartRun | src/xxsocket.cpp:72-80 | Compressing at the first run keeps the written text a prefix of the final text and resumes at the run's end. |
| Ipv6Text.NextGroup | src/xxsocket.cpp:86-101 | Emitting any other group keeps the written text a prefix of the final text. |
| Ipv6Text.NextGroupAfterRun | src/xxsocket.cpp:86-101 | After the run, each group is appended after the compressed head. |
| Ipv6Text.PrintedAll | src/xxsocket.cpp:102-103 | Once past group 7, the printer has written exactly `V6Text`. |
| Ipv6Text.GroupNumeral | src/xxsocket.cpp:86-98 | Every printed group is a canonical lowercase hexadecimal numeral of its value: at least one digit, no leading zero, no ':'. |
| Ipv6Text.HexGroupsShape | src/xxsocket.cpp:86-101 | Groups joined by ':' never contain "::" and neither begin nor end with ':'. |
| Ipv6Text.DoubleColon | src/xxsocket.cpp:66-83 | "::" appears at most once. Without a compressible run it never appears. With one, its only occurrence is right after the groups that precede the run. |
| Ipv6Text.FirstRunNotLongest | src/xxsocket.cpp:66-80 | 0:0:0:1:0:0:0:0 prints as "::1:0:0:0:0": the first run of three is compressed, not the longer run of four. |
| Ipv6Text.ExampleRun | src/xxsocket.cpp:66-80 | For that address, the first run starts at group 0 and ends at group 3. |
| Ipv6Text.FiveJoined | src/xxsocket.cpp:86-101 | The five groups after that run print as "1:0:0:0:0". |
| Compat.ScanChar | src/xxsocket.cpp:178-206 | One character of the scan either keeps the scanner state consistent with the text read so far, or returns 0 only when no dotted quad begins with that text. This covers a digit after a lone "0", a value over 255, a '.' without a digit before it, a fifth field and any other character. |
| Compat.TakeDigit | src/xxsocket.cpp:181-195 | A digit either extends the open field, with its value and the octet count updated consistently with the text, or is refused, and then no dotted quad begins with the text. The `++octets > 4` return is never taken. |
| Compat.TakeDot | src/xxsocket.cpp:197-202 | A '.' after a digit either closes the field and opens the next one at value 0, consistently with the text, or is refused after the fourth octet, and then no dotted quad begins with the text. |
| Compat.ScanText | src/xxsocket.cpp:175-207 | The scanning loop, up to the NUL, either ends in a state consistent with the whole text, or returns 0 only for a text that is not a dotted quad. |
| Compat.Rejected | src/xxsocket.cpp:178-205 | A text with a beginning that no dotted quad has is not a dotted quad. |
| Compat.Pton4 | src/xxsocket.cpp:167-212 | Returns 1 exactly for a dotted quad, with its four octets in `dst[0..3]` and the rest of `dst` untouched. Otherwise returns 0 and leaves `dst` untouched. |
| Compat.Memcpy | src/xxsocket.cpp:210 | The four scanned octets are copied to the front of `dst`, and nothing else changes. |
| Compat.Pton | src/xxsocket.cpp:142-155 | For AF_INET: 1 if and only if the text is a dotted quad, with its octets in `dst[0..3]` and the rest of `dst` kept, and 0 if and only if it is not. A family other than AF_INET and AF_INET6 gives -1, a distinct error. `dst` is untouched unless the result is 1. |
| QuadScan.ScanStart | src/xxsocket.cpp:175-177 | The initial state (no digit, no octet, `tmp[0] = 0`) is consistent with the empty text. |
| QuadScan.ScanDigit | src/xxsocket.cpp:181-195 | A digit is refused after a lone "0" or when the value would pass 255, and then no dotted quad begins with the text. Otherwise the open field grows, its value is `10 * old + digit`, and a new field counts one more octet, never a fifth. |
| QuadScan.ScanDot | src/xxsocket.cpp:197-202 | A '.' is refused after an empty field or after the fourth octet, and then no dotted quad begins with the text. Otherwise it closes an accepted octet and opens an empty field with value 0. |
| QuadScan.ScanOther | src/xxsocket.cpp:204-205 | Any character other than a digit or '.' is in no dotted quad. |
| QuadScan.ScanEnd | src/xxsocket.cpp:208-211 | At the NUL, fewer than four octets means the text is not a dotted quad. Four octets means it is one, and `tmp` holds its value. |
| QuadScan.QuadPrefixViable | src/xxsocket.cpp:178-207 | Every beginning of a dotted quad passes the scanner's per-character checks. |
| QuadScan.ValidPrefix | src/xxsocket.cpp:181-188 | Every beginning of an accepted octet field has no leading zero and a value of at most 255. |
| QuadScan.ValueMonotone | src/xxsocket.cpp:182-187 | A numeral's value is at least the value of any of its prefixes, which is why rejecting a value over 255 early is sound. |
| QuadScan.SingleDigit | src/xxsocket.cpp:184 | A one-digit field denotes that digit, and is zero exactly when it is "0". |
| QuadScan.OpenField | src/xxsocket.cpp:181-188 | A character other than '.' extends the last field and leaves the others. |
| QuadScan.CloseField | src/xxsocket.cpp:197-201 | A '.' closes the last field and opens an empty one. |
| QuadScan.OpenFieldDigit | src/xxsocket.cpp:182-188 | The value of a field grown by a digit, and exactly when the grown field still begins an accepted octet. |
| QuadScan.ExtendOpen | src/xxsocket.cpp:188-193 | Storing the new value keeps the state consistent with the grown field. |
| QuadScan.CloseOpen | src/xxsocket.cpp:200-201 | `*++tp = 0` after a complete octet keeps the state consistent with the new empty field. |
| QuadScan.ScanComplete | src/xxsocket.cpp:208-211 | Four octets at the end: the text parses to `tmp`. |
| QuadScan.ScanIncomplete | src/xxsocket.cpp:208-209 | Fewer than four octets at the end: the text does not parse. |
| QuadScan.CompleteFields | src/xxsocket.cpp:208-210 | With four octets, the four fields are accepted and `tmp` holds their values. |
| QuadScan.IncompleteFields | src/xxsocket.cpp:208-209 | With another octet count, there are not four accepted fields. |
| Numerals.DigitOf | src/xxsocket.cpp:181-182 | `strchr(digits, ch) - digits` is the digit's position in the table. |
| Numerals.DigitRowsSpelled | src/xxsocket.cpp:52 | The digit tables are "0123456789" and "0123456789abcdef". |
| Numerals.NumeralCanonical | src/xxsocket.cpp:29-41 | Printing a number gives a canonical numeral that denotes it. |
| Numerals.CanonicalNumeral | src/xxsocket.cpp:181-188 | A canonical numeral is the one printed for the number it denotes. |
| Numerals.CanonicalInjective | src/xxsocket.cpp:184-185 | Two different canonical numerals denote different numbers, which is why a leading zero must be refused. |
| Numerals.NumeralValueSnoc | src/xxsocket.cpp:182 | Appending a digit gives `value * base + digit`. |
| Numerals.NumeralAvoids | src/xxsocket.cpp:29-43 | A numeral contains no character outside its alphabet, such as '.', ':' or NUL. |
| Numerals.LeadingDigitPositive | src/xxsocket.cpp:184 | A numeral whose first digit is not zero is positive. |
| Strings.SplitJoin | src/xxsocket.cpp:42-43 | Splitting parts joined by a separator they do not contain gives back the parts. |
| Strings.JoinSplit | src/xxsocket.cpp:197-201 | Joining the fields of a text gives back the text. |
| Strings.SplitPrefix | src/xxsocket.cpp:178-207 | The fields of a prefix of a text are fields of the text, except the last, which begins the corresponding one. |
| Strings.JoinShape | src/xxsocket.cpp:99-100 | Non-empty parts joined by a separator they do not contain have no doubled separator, and none at either end. |
| Strings.DoubledOnlyBetween | src/xxsocket.cpp:74-76 | The separators put between two such texts are the only doubled separator. |
| OutBuffer.Put | src/xxsocket.cpp:41 | `*dst++ = c` appends `c` to the written text and changes nothing else. |
| OutBuffer.Terminated | src/xxsocket.cpp:45-46 | After the text and its NUL, the buffer holds them and nothing past them has changed. |
| Sockets.Socket.constructor | src/xxsocket.cpp:345-347 | A default `xxsocket` holds no descriptor. |
| Sockets.Socket.FromHandle | src/xxsocket.cpp:349-351 | Constructing from a handle adopts it. |
| Sockets.Socket.Move | src/xxsocket.cpp:353-356 | The move constructor takes the source's handle and leaves the source closed. |
| Sockets.Socket.Opening | src/xxsocket.cpp:371-374 | Constructing with `(af, type, protocol)` makes one `::socket` call, consuming one scripted answer, and holds its result. |
| Sockets.Socket.IsOpen | src/xxsocket.cpp:495-498 | An object is open exactly when it holds a handle. |
| Sockets.Socket.Open | src/xxsocket.cpp:391-398 | `::socket` is called, once, only when closed. An open handle is left as it is. The result is whether a handle is held afterwards. |
| Sockets.Socket.Close | src/xxsocket.cpp:1074-1081 | Afterwards nothing is held. The held handle, if any, is passed to `::closesocket` exactly once. Closing a closed handle calls nothing, so `close` is idempotent. |
| Sockets.Socket.Reopen | src/xxsocket.cpp:400-404 | Closes the held handle if any, then always makes one `::socket` call, consuming one scripted answer, and holds its result. |
| Sockets.Socket.Swap | src/xxsocket.cpp:381-389 | A closed object takes the other's handle and closes the other. An open one changes neither. This holds even when both are the same object. |
| Sockets.Socket.MoveAssign | src/xxsocket.cpp:366-369 | Move assignment is `swap`: the two objects still hold the same handles between them. |
| Sockets.Socket.AssignHandle | src/xxsocket.cpp:358-364 | Assigning a handle adopts it only when closed. An open object keeps its own. |
| Sockets.Socket.Release | src/xxsocket.cpp:500-505 | Returns the held handle without closing it and leaves the object closed. |
| Sockets.Swapped | src/xxsocket.cpp:381-389 | A swap conserves the multiset of handles the two objects hold, so none is lost or duplicated. A closed `this` leaves the other closed. An open `this` changes nothing. |
| Sockets.SwapSettles | src/xxsocket.cpp:381-389 | A second swap changes nothing. |
| Sockets.Kernel.Socket | src/xxsocket.cpp:395 | `::socket` returns the kernel's next answer and is recorded. |
| Sockets.Kernel.CloseSocket | src/xxsocket.cpp:1078 | `::closesocket` is recorded with its handle. |

## Left out

- `inet_pton6` is not modelled. Its declaration is commented out and its
  body is not part of this model, so `Compat.Pton` requires a family other
  than AF_INET6 and leaves that branch of `inet_pton` out.
- `errno` is not modelled as a global. `Compat.NtopResult` carries the
  errno value that a NULL result sets.
- `Compat.NtopV4` and `Compat.NtopV6` take `size` as a number with
  `size <= dst.Length`. The C code trusts the caller that `dst` has `size`
  writable bytes.
- Addresses are network-order byte sequences. `struct in_addr` and
  `struct in6_addr` are not modelled, and `ntohl` is modelled as the
  big-endian value of the four bytes (`Compat.HostOrder`).
- `Compat.Pton4` reads `src` as a sequence of characters up to the first
  NUL, or to its end if there is none. The C code would read past the end
  of a string that has no NUL.
- `Compat.Pton4` allocates `tmp` zeroed. The C array is uninitialised
  except for the cells the scan sets, and the scanner state only ever
  reads cells it has set.
- `Sockets.Kernel` does not model the kernel's choice of descriptor
  numbers, errors or limits. `::socket`'s answers are a script given up
  front, and a handle's integer width is unbounded.
- The handle methods that return `*this` (`swap`, both `operator=`)
  return nothing in the model.
- `~xxsocket` is not modelled separately. It calls `close`, which is
  `Sockets.Socket.Close`.
- `native_handle`, the socket options and every other system call
  wrapper are not part of this model. So are `open_ex` and the other
  Windows-only code, the resolvers, the connect/send/recv loops driven by
  `select`, and `ip::endpoint`.
- Concurrency is not modelled. Nothing here is safe to share between
  threads, and the model assumes a single thread.
