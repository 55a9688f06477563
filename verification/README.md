# Verified models of the CoAP codec and of the mbed TLS arithmetic and cipher modes

The project models, in Dafny, the parts of the repository where correctness is hardest to see, and
proves what they compute.

* **Multi-precision integers** (`bignum.c`). `Mpi` is an object with a sign and a sequence of 64-bit
  limbs, updated in place; every routine is a method proved against one line of integer arithmetic.
  `Numbers.dfy` and `Limbs.dfy` hold the arithmetic behind it: congruence, gcd, the value of a limb
  sequence, wrapping word operations.
* **Cipher modes.** `BlockCipher.dfy` has 16-byte blocks and an abstract block cipher, a pair of
  functions of which the round trips assume that they are inverse. On top of it: XTS with ciphertext
  stealing, CBC and the buffering cipher layer with its padding schemes, CCM. ChaCha20 is modelled
  with its block function; ChaCha20-Poly1305 with the authenticator as an arbitrary function of key
  and bytes fed.
* **Base64.** The two-pass decoder against a declarative description of the texts accepted.
* **CoAP options** (`code/coap`). The linked option list with its nodes and pointers, the option
  encoder and the two option parsers, and the option checker with its scratch table.

The functions that specify a mode or a format are themselves pinned down in bytes and numbers: what
CCM authenticates, the transcript of ChaCha20-Poly1305, the blocks of CBC and XTS, the padding, the
option bytes, the base64 symbols and the digits are each given by index, and the ChaCha20 block also by
the numbers of RFC 7539 (`CcmFormat.dfy`, `XtsBytes.dfy`, `CoapBytes.dfy`, `CoapTable.dfy`,
`Base64Bytes.dfy`, `ChaCha20Vector.dfy`).

Wherever the source takes its input in pieces (cipher layer, ChaCha20, ChaCha20-Poly1305), the context
object has ghost fields for everything fed and emitted so far, and its invariant says that the emitted
bytes are those of the one-shot function. As every call keeps the invariant, the result does not
depend on how the input was cut.

## Where the source does not do what its documentation promises

These are kept as they are, and the exact condition is proved.

* `mbedtls_mpi_mod_int` wraps for large divisors: it is exact if and only if b <= 2^32 or b divides
  2^64 (`MpiMod.ModIntExactIff`, counterexample `MpiMod.ModLimbsWraps`).
* `mbedtls_mpi_gcd` returns 0 for B = 0, so it is the gcd if and only if B is not 0 or A is 0
  (`MpiGcd.BinaryGcdCorrectIff`).
* `mbedtls_mpi_exp_mod` may return N itself for negative A: it is reduced if and only if not (A
  negative, E odd, N used up by dividing it at most E times by its gcd with A), so always when A and
  N are coprime and N > 1 (`ExpMod.PowModReducedIff`, `ExpMod.PowModReducedIfCoprime`,
  counterexample `ExpMod.PowModNotReduced`).
* `mbedtls_mpi_div_mpi` reads the sign of an input again after writing the quotient, so dividing a
  negative number into itself gives the wrong sign (`MpiDiv.DivisionInPlaceIff`).
* The option parsers read the first byte of a 16-bit delta or length twice: a list in order is rebuilt
  from its encoding if and only if every such value is below 269 or, less 269, has two equal bytes,
  and no value is longer than 1034 (`CoapRoundTrip.ListRoundTrip`, `CoapWire.CarriedIff`,
  counterexample `CoapRoundTrip.Delta270IsMisread`).
* The base64 decoder computes a longer output than it writes if symbols are left over without enough
  pads (`Base64Text.WrittenAgainstComputed`).
* Zero padding does not record the length: it is recovered if and only if the data does not end in a
  zero byte (`Padding.PaddingBack`).

## Model

| member | source | states |
|---|---|---|
| MpiCore.Grow | thirdparty/mbedtls/library/bignum.c:116-140 | the value is kept; missing limbs are zeros behind the old ones |
| MpiCore.Copy | thirdparty/mbedtls/library/bignum.c:182-217 | X has the value of Y, also when X is Y; an empty Y empties X |
| MpiCore.Lset | thirdparty/mbedtls/library/bignum.c:298-311 | X has the value of the signed word, including the most negative one |
| MpiCore.Lsb | thirdparty/mbedtls/library/bignum.c:355-365 | the exponent of the largest power of two dividing X, and 0 for zero |
| MpiCore.Clz | thirdparty/mbedtls/library/bignum.c:370-383 | the number of leading zero bits of a limb: x < 2^(biL-j), and x >= 2^(biL-1-j) unless x is 0 |
| MpiCore.BitLen | thirdparty/mbedtls/library/bignum.c:388-402 | the n with 2^(n-1) <= abs(X) < 2^n, and 0 for zero |
| MpiCore.CmpAbs | thirdparty/mbedtls/library/bignum.c:820-845 | the sign of abs(X) - abs(Y), whatever leading zero limbs there are |
| MpiCore.CmpMpi | thirdparty/mbedtls/library/bignum.c:850-878 | the sign of X - Y, minus zero being equal to zero |
| MpiCore.CmpInt | thirdparty/mbedtls/library/bignum.c:883-894 | the sign of X - z for every signed word z |
| MpiShift.ShiftL | thirdparty/mbedtls/library/bignum.c:727-772 | abs(X) * 2^count, sign kept; limbs are added only if the result needs them |
| MpiShift.ShiftR | thirdparty/mbedtls/library/bignum.c:777-815 | abs(X) / 2^count rounded down, including counts past the end |
| MpiAdd.AddAbs | thirdparty/mbedtls/library/bignum.c:899-950 | X = abs(A) + abs(B) for every aliasing of X, A and B, X growing for the carry |
| MpiAdd.SubHlp | thirdparty/mbedtls/library/bignum.c:955-971 | subtracting n limbs from D in place, the borrow loop stopping inside D because D is large enough |
| MpiAdd.BorrowInside | thirdparty/mbedtls/library/bignum.c:965-970 | as long as a borrow is pending and the result is not negative, there is a limb left to take it |
| MpiAdd.SubAbs | thirdparty/mbedtls/library/bignum.c:976-1014 | X = abs(A) - abs(B) for every aliasing, or the negative-value error, leaving X alone, exactly if abs(A) < abs(B) |
| MpiAdd.AddMpi | thirdparty/mbedtls/library/bignum.c:1019-1045 | X = A + B exactly, for all signs and every aliasing |
| MpiAdd.SubMpi | thirdparty/mbedtls/library/bignum.c:1050-1076 | X = A - B exactly, for all signs and every aliasing |
| MpiAdd.AddInt | thirdparty/mbedtls/library/bignum.c:1081-1092 | X = A + b for every signed word b |
| MpiAdd.SubInt | thirdparty/mbedtls/library/bignum.c:1097-1108 | X = A - b for every signed word b |
| MpiMul.MulHlp | thirdparty/mbedtls/library/bignum.c:1121-1180 | D, from limb off on, gains exactly b times S, the last carry staying inside D |
| MpiMul.MulMpi | thirdparty/mbedtls/library/bignum.c:1185-1217 | X = A * B exactly, for all signs and every aliasing |
| MpiMul.MulInt | thirdparty/mbedtls/library/bignum.c:1222-1234 | X = A * b for every unsigned word b |
| IntDiv.IntDivIntWide | thirdparty/mbedtls/library/bignum.c:1239-1272 | quotient and remainder of u1*2^64+u0 by d with a double-width type; all ones if d is 0 or u1 >= d |
| IntDiv.HalfQuotient | thirdparty/mbedtls/library/bignum.c:1296-1308 | the half-word quotient is exact after the correction loop, for a normalised divisor |
| IntDiv.IntDivIntHalf | thirdparty/mbedtls/library/bignum.c:1239-1329 | the portable branch, with its wrapping products and differences, has the same contract as the double-width branch |
| MpiDiv.TruncatedDivision | thirdparty/mbedtls/library/bignum.c:1331-1334 | the specification of division: A = Q*B + R, abs(R) < abs(B), R zero or of the sign of A |
| MpiDiv.TruncatedDivisionUnique | thirdparty/mbedtls/library/bignum.c:1331-1334 | only one quotient and one remainder satisfy these conditions |
| MpiDiv.DigitTooLarge | thirdparty/mbedtls/library/bignum.c:1393-1407 | a digit that fails the three-limb test is larger than the quotient digit |
| MpiDiv.DigitAlmostRight | thirdparty/mbedtls/library/bignum.c:1393-1419 | a digit that passes the three-limb test is at most one too large |
| MpiDiv.FindDigit | thirdparty/mbedtls/library/bignum.c:1384-1407 | the estimate after the test loop is not below the quotient digit and at most one above it |
| MpiDiv.EliminateLimb | thirdparty/mbedtls/library/bignum.c:1382-1420 | one round of the long division, with at most one add-back: X loses digit*Y*base^k and ends below Y*base^k |
| MpiDiv.TopQuotient | thirdparty/mbedtls/library/bignum.c:1373-1380 | the subtraction loop for the top digit stores how often Y fits |
| MpiDiv.DivMagnitudes | thirdparty/mbedtls/library/bignum.c:1371-1420 | the whole long division: quotient digits in Z, remainder in X |
| MpiDiv.NormaliseOperands | thirdparty/mbedtls/library/bignum.c:1362-1369 | both operands are multiplied by the same power of two, and stay inside their limbs plus one |
| MpiDiv.DivMpi | thirdparty/mbedtls/library/bignum.c:1334-1444 | truncated division for every B except 0 (an error that changes nothing), either output optional; with outputs that are inputs or each other, what comes out instead: of an input that the quotient overwrites only part of the sign is left |
| MpiDiv.DivisionInPlaceIff | thirdparty/mbedtls/library/bignum.c:1422-1437 | which divisions into A or B themselves are right: the quotient if and only if the overwritten number is not negative or the quotient is 0, the remainder behind a quotient in A if and only if A is 0, or the quotient is not 0 and the signs agree or the remainder is 0 |
| MpiMod.DivInt | thirdparty/mbedtls/library/bignum.c:1449-1460 | truncated division by a signed word, with the same account of outputs that are A or each other |
| MpiMod.ModMpi | thirdparty/mbedtls/library/bignum.c:1465-1483 | A mod B in [0, B) for positive B and A of either sign; the two errors otherwise |
| MpiMod.ModLimbsExact | thirdparty/mbedtls/library/bignum.c:1514-1528 | the half-limb remainder loop computes the number modulo b for every b up to 2^32, and for the larger b that divide 2^64 |
| MpiMod.ModLimbsWraps | thirdparty/mbedtls/library/bignum.c:1514-1528 | for every other b the loop is wrong on the number 2^64: it wraps |
| MpiMod.ModIntExactIff | thirdparty/mbedtls/library/bignum.c:1514-1528 | the loop is exact for all numbers if and only if b <= 2^32 or b divides 2^64 |
| MpiMod.ModInt | thirdparty/mbedtls/library/bignum.c:1488-1540 | the errors for b <= 0, the exact remainder for the b above, and the value of the wrapping loop for every b |
| Montgomery.NewtonStep | thirdparty/mbedtls/library/bignum.c:1553-1554 | one step of x *= 2 - m*x in wrapping arithmetic doubles the number of correct low bits |
| Montgomery.MontgInit | thirdparty/mbedtls/library/bignum.c:1545-1557 | mm * N[0] is -1 modulo 2^64 for odd N, lifted from four bits |
| Montgomery.DummyFits | thirdparty/mbedtls/library/bignum.c:1593-1597 | the subtraction made for timing only never runs out of T |
| Montgomery.MontMul | thirdparty/mbedtls/library/bignum.c:1562-1600 | A becomes A*B/R modulo N, fully reduced below N; a scratch number without limb n is the error and changes nothing |
| Montgomery.MontRed | thirdparty/mbedtls/library/bignum.c:1605-1614 | A becomes A/R modulo N, fully reduced below N, with the same error |
| ExpMod.LoadRR | thirdparty/mbedtls/library/bignum.c:1667-1680 | R^2 mod N, computed or taken from a valid cache, which is filled |
| ExpMod.EnterRep | thirdparty/mbedtls/library/bignum.c:1682-1690 | W[1] is the Montgomery form of A, for A below N or not |
| ExpMod.FillTable | thirdparty/mbedtls/library/bignum.c:1698-1721 | every entry from 2^(wsize-1) to 2^wsize - 1 is set, to the Montgomery form of the power of A with that exponent |
| ExpMod.ScanExponent | thirdparty/mbedtls/library/bignum.c:1723-1785 | the scan keeps X = A^(exponent bits consumed outside the window), the window being the bits in wbits, and reads only table entries that are set |
| ExpMod.FlushWindow | thirdparty/mbedtls/library/bignum.c:1787-1798 | the bits left in the window are worked off: X is A to the whole exponent |
| ExpMod.ExpMod | thirdparty/mbedtls/library/bignum.c:1619-1822 | for odd positive N and E >= 0, every window size and an optional cache, X is PowMod of the sign of A, abs(A), E and N, whose meaning the next rows give; the errors are exact and leave X alone |
| ExpMod.PowModCongruent | thirdparty/mbedtls/library/bignum.c:1800-1809 | that number is congruent to A^E modulo N, and lies in [0, N] |
| Numbers.AbsorbedIff | thirdparty/mbedtls/library/bignum.c:1805-1809 | N divides A^E if and only if nothing is left of N after dividing it, at most E times, by its gcd with A: a test without exponentiation |
| ExpMod.PowModReducedIff | thirdparty/mbedtls/library/bignum.c:1805-1809 | it is below N if and only if not (A negative, E odd and A absorbs N in E such steps) |
| ExpMod.PowModReducedIfCoprime | thirdparty/mbedtls/library/bignum.c:1805-1809 | it is always below N when N > 1 and A and N are coprime |
| ExpMod.PowModNotReduced | thirdparty/mbedtls/library/bignum.c:1805-1809 | a concrete case: (-3)^1 mod 3 comes out as 3 |
| Numbers.GcdCharacterised | thirdparty/mbedtls/library/bignum.c:1827-1874 | the specification of gcd: a common divisor that every common divisor divides |
| Numbers.GcdUnique | thirdparty/mbedtls/library/bignum.c:1827-1874 | there is only one such number |
| MpiGcd.CommonPower | thirdparty/mbedtls/library/bignum.c:1838-1845 | taking out the common power of two leaves numbers not both even, whose gcd times the power is the gcd |
| MpiGcd.GcdPass | thirdparty/mbedtls/library/bignum.c:1849-1864 | one round of the loop keeps the gcd and lowers TA + TB |
| MpiGcd.GcdMpi | thirdparty/mbedtls/library/bignum.c:1827-1874 | G is the binary gcd of abs(A) and abs(B): their gcd, and 0 if B is 0 |
| MpiGcd.BinaryGcdCorrectIff | thirdparty/mbedtls/library/bignum.c:1827-1874 | the result is the greatest common divisor if and only if B is not 0 or A is 0 |
| MpiInv.EvenCoefficients | thirdparty/mbedtls/library/bignum.c:1936-1962 | when TU is even, adding TB and subtracting TA makes both coefficients even: every halving is exact |
| MpiInv.EuclidLoop | thirdparty/mbedtls/library/bignum.c:1934-1977 | the loop keeps TU = U1*TA + U2*TB and TV = V1*TA + V2*TB and ends with 1 = V1*TA + V2*TB |
| MpiInv.InverseFromCombination | thirdparty/mbedtls/library/bignum.c:1979-1985 | the coefficient, brought into range, inverts A modulo N |
| MpiInv.InverseNeedsCoprime | thirdparty/mbedtls/library/bignum.c:1916-1922 | no inverse exists unless the gcd is 1, so the not-acceptable error is exact |
| MpiInv.InvMod | thirdparty/mbedtls/library/bignum.c:1904-1994 | for every N > 1, odd or even: 0 <= X < N and A*X = 1 mod N exactly if gcd(A, N) is 1, otherwise the error, leaving X alone |
| RadixText.ReadString | thirdparty/mbedtls/library/bignum.c:432-499 | X is the number the text denotes (optional minus, digits of the radix), and the invalid-character error exactly if the text denotes none |
| RadixText.DigitTable | thirdparty/mbedtls/library/bignum.c:415-427 | the sixteen digit characters: both cases are read, upper case is written, every other character is none |
| RadixText.MagnitudeCons | thirdparty/mbedtls/library/bignum.c:456-491 | a leading digit weighs radix^length, so or-ing hexadecimal digits in from the right reads the same number as multiplying from the left |
| RadixText.WriteHlp | thirdparty/mbedtls/library/bignum.c:504-526 | appends the digits of X without leading zeros |
| RadixText.WriteHex | thirdparty/mbedtls/library/bignum.c:564-583 | writes two digits a byte, skipping leading zero bytes but never the last |
| RadixText.DigitsAreShortest | thirdparty/mbedtls/library/bignum.c:504-526 | no leading zero but for the number 0 |
| RadixText.BytesAreShortest | thirdparty/mbedtls/library/bignum.c:564-583 | hexadecimal digits come in pairs, without a leading pair 00 but for the number 0 |
| RadixText.NeedIs | thirdparty/mbedtls/library/bignum.c:542-550 | the length asked for is the even number 3 or 4 above the bit length, or half or a quarter of it |
| RadixText.TextFits | thirdparty/mbedtls/library/bignum.c:542-556 | sign, digits and terminator fit in the length computed from the bit length, for every radix 2 to 16 and any number of limbs |
| RadixText.WriteString | thirdparty/mbedtls/library/bignum.c:531-602 | the buffer holds sign, digits and a zero, nothing else is touched; the too-small error with the length needed is exact |
| RadixText.ReadAfterWrite | thirdparty/mbedtls/library/bignum.c:432-602 | reading what was written gives the number back, for every number, sign and radix, and for a number without limbs |
| OptionOrder.InsertKeepsOrder | code/coap/options/coap_option.cpp:121-155 | inserting into a list in order keeps it in order and adds exactly that option |
| OptionOrder.InsertIsStable | code/coap/options/coap_option.cpp:121-155 | among options of one number, the new one comes last |
| OptionOrder.InsertAllStableSorts | code/coap/options/coap_option_set.cpp:27-39 | after any sequence of additions the list is the stable sort of the options added |
| OptionOrder.StableSortUnique | code/coap/options/coap_option_set.cpp:27-39 | there is only one stable sort |
| OptionOrder.InsertAllSorted | code/coap/parser/msg_codec.cpp:403-404 | adding the options of a list in order rebuilds the list |
| OptionOrder.InsertAtGap | code/coap/options/coap_option.cpp:121-155 | a list in order has only one such place, the one of stable insertion |
| CoapOption.OptionList.InsertFront | code/coap/options/coap_option.cpp:93-105 | the linked nodes are the new node and then the old ones |
| CoapOption.OptionList.InsertEnd | code/coap/options/coap_option.cpp:107-119 | the linked nodes are the old ones and then the new node |
| CoapOption.OptionList.FindPlace | code/coap/options/coap_option.cpp:139-152 | the search always stops, in any list, at a node that is not larger and whose successor is |
| CoapOption.OptionList.LinkBetween | code/coap/options/coap_option.cpp:145-148 | the node is linked in right behind the one found, nothing else is relinked |
| CoapOption.OptionList.Insert | code/coap/options/coap_option.cpp:121-155 | the contents are the stable insertion of the option into the old contents if those were in order; in any other list the option still lands where a number not larger is followed by a larger one |
| CoapOption.OptionList.FreeList | code/coap/options/coap_option.cpp:157-174 | every node is destroyed exactly once and the list is empty |
| CoapOption.OptionList.Size | code/coap/options/coap_option.cpp:186-203 | the number of nodes modulo 2^16 |
| CoapOptionSet.OptionsSet.AddOption | code/coap/options/coap_option_set.cpp:27-39 | a copy of the option is inserted stably; a failing allocation changes nothing |
| CoapOptionSet.NeverFull | code/coap/options/coap_option_set.cpp:183-193 | whenever a once-only number is not in the scratch table, the table has a free slot |
| CoapOptionSet.TableStep | code/coap/options/coap_option_set.cpp:170-212 | the table holds exactly the once-only numbers seen so far, each once |
| CoapOptionSet.MaskStep | code/coap/options/coap_option_set.cpp:195-229 | or-ing in the error of one more option keeps the meaning of every mask bit |
| CoapOptionSet.SetBitOf | code/coap/options/coap_option_set.h:15-38 | setting the status bit of one option sets that of no other |
| CoapOptionSet.OptionsSet.CheckOne | code/coap/options/coap_option_set.cpp:245-390 | the switch: error, status bit and table entry of one option, by the option table of section 5.10 of RFC 7252 |
| CoapOptionSet.OptionsSet.CheckOptions | code/coap/options/coap_option_set.cpp:231-394 | repeat, length, unknown and critical bits if and only if there is such a fault (critical: at an odd number), no other bit; the status gains exactly the bits of the known numbers present |
| CoapOptionSet.TableRow | code/coap/options/coap_option_set.cpp:245-390 | the option table row by row: repeatable or not, status bit, shortest and longest value |
| CoapTable.TableIs | code/coap/options/coap_option_set.cpp:245-390 | the same table as one literal, and no other numbers known |
| CoapTable.MaskMeans | code/coap/options/coap_option_set.cpp:231-394 | the mask in terms of that table and of numbers: 1 unknown, 2 repeated, 4 length, 0x100 one of these at an odd number, no other bit |
| CoapWire.RestSound | code/coap/parser/msg_codec.cpp:327-413 | whatever the parser accepts is the wire form of the options and payload it reads |
| CoapWire.RestComplete | code/coap/parser/msg_codec.cpp:327-413 | every wire form of acceptable options, with or without payload, is accepted |
| CoapWire.DecodeExactly | code/coap/parser/msg_codec.cpp:313-423 | acceptance and result in one: the parser yields these options and this payload if and only if the bytes are their wire form |
| CoapWire.CarriedIff | code/coap/parser/msg_codec.cpp:258-266 | a delta or length survives encoding and parsing if and only if it is below 269 or both bytes of the value minus 269 are equal (the parser reads the first byte twice) |
| CoapWire.SmallStepsFit | code/coap/parser/msg_codec.cpp:248-287 | in particular every list in order with deltas and lengths below 269 is carried |
| CoapWire.RoundTrip | code/coap/parser/msg_codec.cpp:226-423 | for every list and payload: the options the parser reads, in wire order, are the list (and then the payload is found) if and only if every delta and length is carried and no value is longer than 1034 |
| CoapCodec.EncodeOptions | code/coap/parser/msg_codec.cpp:226-311 | the buffer holds the wire form of the list (whose bytes the next rows give), the rest of it is untouched, and the length is returned |
| CoapBytes.WireIsLayout | code/coap/parser/msg_codec.cpp:240-304 | the bytes of a list as numbers, and that no other bytes have this layout: four bits of delta and four of length, 13 with one byte less 13, 14 with two bytes less 269 in network order, first those of the delta, and the value |
| CoapBytes.FormIsLayout | code/coap/parser/msg_codec.cpp:226-311 | the options laid out in this way, and a payload behind a byte 255 |
| CoapBytes.DecodeReads | code/coap/parser/msg_codec.cpp:313-423 | which options and payload are read from any bytes, and which bytes are rejected, in numbers: the same fields, with the first of two bytes read twice, at most 1034 bytes of value, and numbers summed in 16 bits |
| CoapBytes.PayloadPlace | code/coap/parser/msg_codec.cpp:331-343 | the payload pointer stands behind a byte 255 and the payload is all from there on |
| CoapCodec.ReadStep | code/coap/parser/msg_codec.cpp:348-399 | header, extended delta and length as the loop reads them, with up to three bytes read past the end, agree with the option at that place |
| CoapCodec.ParseOnlyOptions | code/coap/parser/msg_codec.cpp:425-512 | status and payload position are those of the decoder applied to the first optionLen bytes, so later bytes do not matter |
| CoapCodec.ParseOptions | code/coap/parser/msg_codec.cpp:313-423 | the same status and payload position, the options added to the set, and the set emptied on every error |
| CoapCodec.ListRebuilt | code/coap/parser/msg_codec.cpp:226-423 | the half with the payload position: a list in order whose deltas and lengths are carried is rebuilt, and the payload is found where it starts |
| CoapRoundTrip.StaysAhead | code/coap/parser/msg_codec.cpp:366-393 | once a misread delta has put the parser ahead of a number it must still produce, it never comes back to it, wrap-around of the 16-bit sum included |
| CoapRoundTrip.ReadInStep | code/coap/parser/msg_codec.cpp:348-404 | if the options read are those of the list, number by number, then they were read in the order of the list |
| CoapRoundTrip.ListRoundTrip | code/coap/parser/msg_codec.cpp:226-423 | for every list in order: the options inserted by the parser form that list again if and only if every delta and length is carried and no value is longer than 1034 |
| CoapRoundTrip.Delta270IsMisread | code/coap/parser/msg_codec.cpp:366-373 | a concrete list that is not rebuilt: its only option number, 270, comes back as 269 |
| Xts.MulXIsTimesAlpha | thirdparty/mbedtls/library/aes.c:1114-1127 | the two-word multiplication is multiplication by alpha modulo alpha^128 + alpha^7 + alpha^2 + alpha + 1, coefficient by coefficient |
| Xts.BlockAt | thirdparty/mbedtls/library/aes.c:1160-1190 | in both directions, every block that stealing does not touch is the block of the text under alpha^j times the encrypted data unit number |
| Xts.StolenPieces | thirdparty/mbedtls/library/aes.c:1166-1226 | in both directions, the last whole block and the incomplete one behind it: encryption takes the last two tweaks in order, decryption in the other order |
| XtsBytes.UnitBlock | thirdparty/mbedtls/library/aes.c:1160-1190 | byte by byte: block j goes under the cipher with tweak j added before and after, the tweaks being given by their coefficients |
| XtsBytes.UnitEnd | thirdparty/mbedtls/library/aes.c:1166-1226 | byte by byte, and in both directions, the last whole block and the bytes behind it |
| Xts.DecryptsEncrypted | thirdparty/mbedtls/library/aes.c:1132-1229 | decryption inverts encryption for every length from 16 on, ciphertext stealing included |
| Xts.CryptXts | thirdparty/mbedtls/library/aes.c:1132-1229 | the output is the mode function of the input in both directions, for lengths 16 to 2^24; the length error is exact and touches nothing |
| Xts.Steal | thirdparty/mbedtls/library/aes.c:1192-1226 | the stealing step: bytes of the previous block move behind it and that block is replaced |
| Cbc.CryptAppend | thirdparty/mbedtls/library/aes.c:1011-1070 | processing two pieces one after the other, the vector carried over, is processing them at once |
| Cbc.EncBlockAt | thirdparty/mbedtls/library/aes.c:1052-1066 | byte by byte: each block of text, xored with the ciphertext block before it, goes under the cipher |
| Cbc.DecBlockAt | thirdparty/mbedtls/library/aes.c:1036-1050 | byte by byte: each block under the inverse cipher, xored with the ciphertext block before it |
| Cbc.VectorIsLastBlock | thirdparty/mbedtls/library/aes.c:1011-1070 | the updated vector is the last block of the ciphertext, in both directions |
| Cbc.DecryptsEncrypted | thirdparty/mbedtls/library/aes.c:1011-1070 | decryption inverts encryption |
| Cbc.CryptCbc | thirdparty/mbedtls/library/aes.c:1011-1070 | the output and the updated vector, for whole blocks; the length error otherwise |
| Padding.UnpadExactly | thirdparty/mbedtls/library/cipher.c:588-690 | for the three unambiguous schemes: a block has n bytes of data if and only if the padding for n bytes follows them |
| Padding.PaddingBytes | thirdparty/mbedtls/library/cipher.c:578-704 | the value of every byte of padding, for every scheme |
| Padding.UnpadOthersExactly | thirdparty/mbedtls/library/cipher.c:706-742 | no padding: the whole block is data; zero padding: all up to the last byte that is not zero |
| Padding.PaddingBack | thirdparty/mbedtls/library/cipher.c:578-725 | removing what was added gives the data length back; with zero padding if and only if the data does not end in a zero byte |
| Padding.AddPadding | thirdparty/mbedtls/library/cipher.c:578-704 | the block is completed with the padding of the scheme |
| Padding.GetPadding | thirdparty/mbedtls/library/cipher.c:588-742 | error and data length, gathered without branches on the data, are those of the scheme |
| CipherStream.CipherContext.Update | thirdparty/mbedtls/library/cipher.c:393-484 | whatever the pieces: what has been emitted is one-shot CBC of everything fed but the bytes held back, which differ for decryption with padding |
| CipherStream.CipherContext.Finish | thirdparty/mbedtls/library/cipher.c:777-824 | encryption ends with one-shot CBC of the padded message; decryption with that of the input, and the padding verdict; the full-block error is exact |
| CipherStream.PaddedMessageBytes | thirdparty/mbedtls/library/cipher.c:777-824 | the padded message byte by byte, up to the next whole block |
| CipherStream.ChunkingIrrelevant | thirdparty/mbedtls/library/cipher.c:393-484 | contexts that started alike and were fed the same bytes in different pieces have emitted the same bytes, hold the same bytes and have the same vector |
| CipherStreamRun.Send | thirdparty/mbedtls/library/cipher.c:393-830 | an encrypting context fed in any pieces emits one-shot CBC of the padded message |
| CipherStreamRun.Receive | thirdparty/mbedtls/library/cipher.c:393-830 | a decrypting context fed in any pieces emits one-shot CBC decryption less the padding, or the padding error, or the full-block error exactly if the input is not whole blocks (or empty, with padding) |
| CipherStreamRun.SendAndReceive | thirdparty/mbedtls/library/cipher.c:393-830 | an encrypting and a decrypting context, each fed in its own pieces: the message comes back, with zero padding if and only if its last partial block does not end in a zero byte |
| CipherStream.StreamRoundTrip | thirdparty/mbedtls/library/cipher.c:393-830 | decrypting the emitted bytes gives the message back, with zero padding if and only if its last partial block does not end in a zero byte |
| Ccm.CountersDistinct | thirdparty/mbedtls/library/ccm.c:234-296 | the counter blocks of a message are pairwise different and different from counter 0, because the length is below 2^(8q) |
| Ccm.CounterTwice | thirdparty/mbedtls/library/ccm.c:255-290 | counter mode undoes itself |
| Ccm.FlagsAreFields | thirdparty/mbedtls/library/ccm.c:170-185 | for every tag length of the standard, the or-ed flags byte is the sum of its three fields (Appendix A.2.1 of NIST SP 800-38C) |
| Ccm.Increment | thirdparty/mbedtls/library/ccm.c:283-289 | the ripple increment of the last q bytes is the next counter block |
| Ccm.LengthBytes | thirdparty/mbedtls/library/ccm.c:189-193 | the length field is the length in q bytes, and the error exactly if it does not fit |
| Ccm.MacAdditional | thirdparty/mbedtls/library/ccm.c:204-232 | CBC-MAC over the encoded length and the data, zero-padded |
| Ccm.CryptMessage | thirdparty/mbedtls/library/ccm.c:255-290 | counter mode and CBC-MAC of the plaintext, in either direction |
| Ccm.AuthCrypt | thirdparty/mbedtls/library/ccm.c:135-302 | output and tag are those of the mode, which the rows of CcmFormat give in bytes; the parameter error is exact and touches nothing |
| Ccm.EncryptAndTag | thirdparty/mbedtls/library/ccm.c:317-328 | the same with an empty tag refused |
| Ccm.AuthDecrypt | thirdparty/mbedtls/library/ccm.c:333-375 | accepted if and only if the tag is that of the decrypted text, which is then the output; zeros otherwise |
| Ccm.DecryptionAccepts | thirdparty/mbedtls/library/ccm.c:304-375 | every output of encryption is accepted and decrypts to the message |
| CcmFormat.AcceptsExactly | thirdparty/mbedtls/library/ccm.c:147-187 | the parameters accepted, as numbers |
| CcmFormat.TagIsChain | thirdparty/mbedtls/library/ccm.c:149-300 | what the tag is, over the cipher and bytes alone: the string of first block, additional data behind its length, and message, both zero-padded, every byte of it given by its index, is chained block by block from the zero block; the last link under the encrypted counter block 0 is cut to the tag length |
| CcmFormat.ChainExists | thirdparty/mbedtls/library/ccm.c:149-300 | that string, its chain and the counter block exist for all parameters accepted, so every tag is given in this way |
| CcmFormat.CounterAt | thirdparty/mbedtls/library/ccm.c:234-290 | byte k of the text goes under byte k % 16 of the encrypted block made of q - 1, the nonce and the number 1 + k / 16, lowest byte last |
| ChaCha20.RoundsInjective | thirdparty/mbedtls/library/chacha20.c:85-150 | the rounds are one-to-one on states |
| ChaCha20.QuarterRoundInPlace | thirdparty/mbedtls/library/chacha20.c:85-110 | the in-place quarter round is the quarter round on four places |
| ChaCha20Vector.QuarterVector | thirdparty/mbedtls/library/chacha20.c:85-110 | on any four places, the quarter round gives the words of section 2.1.1 of RFC 7539 for its words |
| ChaCha20Vector.InnerBlockTurns | thirdparty/mbedtls/library/chacha20.c:112-131 | a double round turns the four columns of the square of words, and then its four diagonals |
| ChaCha20.Block64 | thirdparty/mbedtls/library/chacha20.c:139-180 | the key block: ten double rounds, plus the initial state, in little-endian bytes |
| ChaCha20Vector.BlockVector | thirdparty/mbedtls/library/chacha20.c:139-180 | for the key, nonce and counter of section 2.3.2 of RFC 7539 the block is the one given there, through all ten double rounds, byte for byte |
| ChaCha20Vector.NextBlock | thirdparty/mbedtls/library/chacha20.c:254-323 | the key stream is the block of the state, and then the key stream of the state with the counter one higher, modulo 2^32 |
| ChaCha20.XorStreamAppend | thirdparty/mbedtls/library/chacha20.c:254-323 | cutting the data anywhere makes no difference |
| ChaCha20.Context.Starts | thirdparty/mbedtls/library/chacha20.c:229-252 | a new stream with this counter and nonce under the old key, at position 0 |
| ChaCha20.Context.Update | thirdparty/mbedtls/library/chacha20.c:254-323 | each byte is xored with the key stream byte of its position in the whole stream, whatever was fed before in which pieces |
| ChaChaPoly.TranscriptInjective | thirdparty/mbedtls/library/chachapoly.c:255-312 | the authenticated bytes determine additional data and ciphertext |
| ChaChaPoly.TranscriptBytes | thirdparty/mbedtls/library/chachapoly.c:255-312 | the authenticated bytes one by one: data, zeros to a multiple of 16, ciphertext, zeros to a multiple of 16, and both lengths in eight bytes, lowest first |
| ChaChaPoly.LittleEndianLow | thirdparty/mbedtls/library/chachapoly.c:285-303 | a length counted modulo 2^64 is encoded like the length |
| ChaChaPoly.Context.Starts | thirdparty/mbedtls/library/chachapoly.c:132-173 | the authenticator is keyed with key block 0 and text starts with key block 1 |
| ChaChaPoly.Context.UpdateAad | thirdparty/mbedtls/library/chachapoly.c:175-196 | appends to the additional data before any text; rejected, changing nothing, in every other phase |
| ChaChaPoly.Context.Update | thirdparty/mbedtls/library/chachapoly.c:198-253 | text under the key stream at its position, and the ciphertext authenticated, in either direction; rejected before the start and after the finish |
| ChaChaPoly.Context.Finish | thirdparty/mbedtls/library/chachapoly.c:255-312 | the tag is that of additional data, padding, ciphertext, padding, lengths; rejected only before the start |
| ChaChaPoly.Context.CryptAndTag | thirdparty/mbedtls/library/chachapoly.c:314-342 | one whole run, in either direction |
| ChaChaPoly.Context.AuthDecrypt | thirdparty/mbedtls/library/chachapoly.c:358-393 | accepted if and only if the tag is that of the transcript of the received ciphertext; zeros otherwise |
| ChaChaPoly.DirectionsAgree | thirdparty/mbedtls/library/chachapoly.c:198-253 | a decrypting run over the output of an encrypting run puts out the plaintext and authenticates the same ciphertext |
| ChaChaPolyRun.Run | thirdparty/mbedtls/library/chachapoly.c:132-312 | start, additional data and text in any pieces, finish: output and tag are those of the whole, whatever the pieces |
| ChaChaPolyRun.KeyAndText | thirdparty/mbedtls/library/chachapoly.c:132-173 | the key of the authenticator is the key block with counter 0, and the text is under the key stream from counter 1 on |
| ChaChaPolyRun.SealAndOpen | thirdparty/mbedtls/library/chachapoly.c:132-393 | an encrypting and a decrypting run, each fed in its own pieces: the tags agree and the message comes back |
| Base64Text.MapsAgree | thirdparty/mbedtls/library/base64.c:44-70 | the two tables are inverse to each other and no white space is a symbol |
| Base64Text.EncMapIsAlphabet | thirdparty/mbedtls/library/base64.c:44-52 | the symbols are the characters A to Z, a to z, 0 to 9, + and / in this order |
| Base64Bytes.SymbolAt | thirdparty/mbedtls/library/base64.c:77-139 | symbol i stands for bits 6i to 6i + 5 of the bytes, zero bits filling up; behind that a pad |
| Base64Bytes.ByteAt | thirdparty/mbedtls/library/base64.c:195-223 | for every accepted text, byte k of group g is made of the bits that the four symbols of the group stand for |
| Base64Bytes.CharsExactly | thirdparty/mbedtls/library/base64.c:151-187 | the characters a text may have, and where: carriage return before line feed, spaces at line ends |
| Base64Bytes.PadsExactly | thirdparty/mbedtls/library/base64.c:165-180 | at most two pads, and nothing behind them |
| Base64Bytes.SymbolsAre | thirdparty/mbedtls/library/base64.c:151-187 | the symbols are what is left without line feeds, carriage returns and spaces |
| Base64Text.EncodedBack | thirdparty/mbedtls/library/base64.c:77-139 | decoding the encoding gives the bytes back |
| Base64Text.WrittenAgainstComputed | thirdparty/mbedtls/library/base64.c:195-223 | the second pass never writes more than the first computed, and as much if and only if there are at least as many pads as symbols behind the last whole group (in particular if the count is a multiple of four) |
| Base64Text.BrokenHasSymbols | thirdparty/mbedtls/library/base64.c:151-187 | line breaks put in anywhere (LF or CR LF, spaces before them) are accepted and change no symbol |
| Base64Text.RoundTrip | thirdparty/mbedtls/library/base64.c:77-228 | every encoding with line breaks put in is accepted and decodes to the bytes, with the exact length computed |
| Base64Text.PlainRoundTrip | thirdparty/mbedtls/library/base64.c:77-228 | in particular the plain encoding is accepted, decodes to the bytes and needs exactly their number |
| Base64.Encode | thirdparty/mbedtls/library/base64.c:77-139 | the text and its terminating zero, nothing else touched; the too-small error with the length needed is exact |
| Base64.Scan | thirdparty/mbedtls/library/base64.c:151-187 | the first pass accepts exactly the acceptable texts and counts symbols and pads |
| Base64.Emit | thirdparty/mbedtls/library/base64.c:208-226 | the second pass writes exactly the decoded bytes |
| Base64.Decode | thirdparty/mbedtls/library/base64.c:144-228 | both passes together: the three outcomes, the length written or needed, and the bytes |

## Left out

- MpiCore.Grow: does not model the limit MBEDTLS_MPI_MAX_LIMBS or a failing allocation; growing always succeeds.
- MpiMod.ModMpi: requires R not to be B; the source then compares R with itself and never ends the final loop, or doubles a negative remainder until allocation fails.
- MpiMod.ModInt: requires a limb when b is 2, since the source then reads limb 0 without looking at the length.
- ExpMod.ExpMod: requires X not to be E or N, which the source reads after writing X; A to have a limb, since the source addresses the limbs of a copy of A that it has just emptied otherwise; a configured window of at least 1; and the cache to be none of the others and, if filled, to hold R^2 mod N.
- Montgomery.MontMul: requires T to have less than n + 1 limbs, which is the error, or at least 2n + 2; between the two the source passes its check and writes behind T.
- Montgomery.MontRed: requires the same of T.
- IntDiv.IntDivIntHalf: the shift by a whole word for an already normalised divisor, undefined in C, is taken to give 0.
- MpiMul.MulAddC: the unrolled multiply-accumulate macros are steps of one exact double-width operation; bn_mul.h is not part of this model.
- Xts.CryptXts: input and output are different buffers; in place, with leftover bytes, the source writes before it reads.
- CoapCodec.ParseOptions: requires 0 < optionLen <= 65530, since 16-bit positions wrap above, and three readable bytes behind the options, which the source reads.
- CoapCodec.ParseOnlyOptions: requires the same of optionLen and of the buffer.
- RadixText.WriteString: requires a limb for radix 2, where the source reads limb 0 without looking at the length.
- CoapCodec.EncodeOptions: requires a non-empty list, as the source does, and fewer than 65536 bytes in all.
- Limb width: 64 bits only. Sizes (size_t) are unbounded, except where the source counts or checks 64-bit lengths.
- The limbs of an Mpi are a sequence in a field, not an array, so two numbers never share a buffer; numbers themselves may alias.
- Inputs that are only read (byte strings, texts) are sequences; input and output buffers therefore never overlap.
- Tags and updated vectors are returned as values instead of being written to a buffer of the caller.
- A block is always 16 bytes: the cipher layer with 8-byte block ciphers is not modelled.
- Node values are constants: SetNo, SetLen and SetVal of an option are not modelled.
- Return codes of calls that cannot fail here (hash and block cipher calls), null pointer checks, zeroization and constant time.
- Encode and Decode of whole CoAP messages: Encode advances past the token twice, and Decode returns OK after an oversized payload.
- Integer options (written big-endian, read little-endian), OptionsSet::Copy (which iterates over itself) and the block options.
- The arithmetic of Poly1305, and concrete block ciphers with their tables and hardware versions.
- Primality tests and prime generation, which rest on random numbers; reading and writing numbers in binary and files.
- GCM, CFB, OFB, CTR and stream modes of the cipher layer.
- Message queues, adapters, sockets, timers, resource classes and the console client.
