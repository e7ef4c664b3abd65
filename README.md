# struct.c in Dafny

A model of the core of lua-struct, the C module that converts between Lua values and
C structs held in Lua strings. The module has three operations:

- `pack(fmt, v1, ..., vn)` builds the byte string that the format describes;
- `unpack(fmt, data)` reads values back from such a string and also returns a count;
- `size(fmt)` gives the number of bytes a format stands for.

A format is a string of one-character directives:

- `<`, `>` and `@` select little-endian, big-endian or native byte order. The order stays in
  force until the next marker, and every call starts in native order.
- `x` is one padding byte.
- `b`, `B`, `h`, `H`, `i` and `I` are signed and unsigned 8-, 16- and 32-bit integers.
- `f` and `d` are a float and a double.
- `?` is a boolean stored in one byte.
- `sN` is a string field of exactly N bytes; the decimal digits N may be absent.

The walk stops at the end of the format or at its first NUL. An unknown character aborts
the operation. pack takes its values from stack slot 2 onwards. unpack stops with an error
when too few bytes are left.

The model has three layers:

1. **The C code, written as the C code is** (module `Struct` with class `Cursor.Cursor`).
   - The methods `Pack`, `Unpack` and `Size` make one pass over the format.
   - The switch becomes one small method per group of cases.
   - The sticky byte order and the argument counter are local variables.
   - unpack's read cursor (`*data`, `*size`) is a class whose method `Avail` is the C `avail`.
   - The digit loop after `s`, which occurs three times in the source, is the method
     `Format.ReadLength`.
   - `_swap16`, `_swap32`, `swap16` and `swap32` are bit-vector functions in module `Swap`
     with the C bodies.
2. **What the C code computes** (module `Codec`): one recursive function per operation
   over the format position, that is `PackFrom`, `UnpackFrom` and `SizeFrom`. Each method
   above is proved to return exactly the value of its function.
3. **What that implies** (module `Properties`):
   - the round trip `unpack(fmt, pack(fmt, ...))`;
   - the size of a format and the length of what pack makes of it;
   - unpack's count;
   - the errors;
   - what each directive consumes;
   - which arguments pack reads;
   - the byte-order behaviour of 16- and 32-bit fields.

The native byte order is a parameter (`native`) everywhere, so both the little-endian and
the big-endian build of the C file are covered. Lua values are a datatype `Lua.Value`. A
Lua error becomes `Err` of a `Result`: an unknown format character, a bad argument in slot
k, or "more bytes needed".

### Behaviour of the C code that the model keeps

- **16-bit fields on a big-endian build.** There, `swap16` swaps in both branches
  (struct.c:65-66). So there `h`/`H` fields are little-endian whatever order is in force
  (`<`, `>`, `@` or none), while `i`/`I` fields follow the marker. `Swap.ShortOrder` names
  the resulting order. One might expect every multi-byte integer to be reversed exactly when
  the requested order differs from the native one; the code does that for 32-bit fields only.
  `Properties.BigShortQuirk` proves the concrete consequence.
- **`s0`, or `s` with no digits.** pack still demands a string argument and uses its slot, yet
  writes nothing. unpack counts the directive in the number it returns but pushes no value
  (struct.c:221, 280-284, 314). `Properties.UnpackCount` and `Properties.EmptyStringQuirk`
  state both effects.
- **`size` and `x`, `?`.** `size` has no case for `x` or `?`, so it raises "unknown format
  character" for both (struct.c:323-362), although pack and unpack accept them and give each
  of them one byte. This agrees with the published `formatchars` (struct.c:382), which lists
  neither.
- **Integers are cast to the field's C type.** So a value out of range comes back reduced
  modulo 2^(8w) (`Bytes.Wrap`). `?` stores whether the value is truthy, and a string is
  cut or zero-padded to N bytes. The round trip is therefore exact only for canonical values
  (`Properties.CanonicalRoundTrip`).

## Model

| member | source | states |
|---|---|---|
| Swap.ByteSwap16 | struct.c:48-51 | _swap16 with the C body on bv16; it carries no contract, and ByteSwapsInvolutive and ByteSwapImages pin it down |
| Swap.ByteSwap32 | struct.c:53-57 | _swap32 with the C body on bv32; it carries no contract, and ByteSwapsInvolutive and ByteSwapImages pin it down |
| Swap.Swap16 | struct.c:59-68 | swap16 with both branches of the big-endian build swapping; it carries no contract, and SwapCases, SwapImages and SwapsInvolutive pin it down |
| Swap.Swap32 | struct.c:70-79 | swap32; it carries no contract, and SwapCases, SwapImages and SwapsInvolutive pin it down |
| Swap.ByteSwapsInvolutive | struct.c:48-57 | swapping the bytes of a 16- or 32-bit value twice gives the value back |
| Swap.ByteSwapImages | struct.c:48-57 | a byte swap turns a value's little-endian memory image into its big-endian one and back |
| Swap.SwapCases | struct.c:59-79 | swap16 is the identity only for little-endian order on a little-endian build and a swap otherwise; swap32 is the identity exactly when the asked order is native |
| Swap.SwapImages | struct.c:59-79 | the bytes a conditionally swapped value leaves in native memory form the value's image in ShortOrder (16 bits) or in the asked order (32 bits) |
| Swap.SwapsInvolutive | struct.c:59-79 | each conditional swap, applied twice with the same orders, gives the value back |
| Swap.SwappedStore16 | struct.c:177-190 | what h/H stores for an integer n is n's two low-order bytes in ShortOrder |
| Swap.SwappedStore32 | struct.c:191-204 | what i/I stores for an integer n is n's four low-order bytes in the asked order |
| Swap.SwapAfterLoad16 | struct.c:286-297 | loading two bytes natively and swapping loads them in ShortOrder |
| Swap.SwapAfterLoad32 | struct.c:298-309 | loading four bytes natively and swapping loads them in the asked order |
| Swap.SwappedLoad16 | struct.c:286-297 | the number h/H reads is the two's-complement / unsigned value of the field read in ShortOrder |
| Swap.SwappedLoad32 | struct.c:298-309 | the number i/I reads is the two's-complement / unsigned value of the field read in the asked order |
| Bytes.ToU8 | struct.c:121-132 | the (char) / (unsigned char) cast keeps n modulo 256 |
| Bytes.Wrap | struct.c:179-180 | a cast to a w-byte type differs from n by a multiple of 256^w and lies in the type's signed or unsigned range |
| Bytes.WrapInRange | struct.c:193-194 | a cast leaves a number its type can hold unchanged |
| Bytes.SignedOfLittleEndianBytes | struct.c:288-289 | the w low-order bytes of n, read back as signed or unsigned, are n cast to the w-byte type |
| Bytes.CastRoundTrip | struct.c:243 | storing n in a char, short or int and reading it as signed or unsigned gives n cast to that type |
| Bytes.Image16 | struct.c:181-188 | the two bytes a short occupies in memory in order o, which `luaL_addlstring` copies; its contract gives the length 2, and Image16Load16 pins it down |
| Bytes.Load16 | struct.c:288-297 | the 16-bit load through `unsigned short*` in order o; it carries no contract, and Image16Load16 pins it down |
| Bytes.Image32 | struct.c:195-202 | the four bytes a store of a 32-bit value (an int or a float's image) leaves in memory in order o; its contract gives the length 4, and Image32Load32 pins it down |
| Bytes.Load32 | struct.c:298-309 | the 32-bit load in order o; it carries no contract, and Image32Load32 pins it down |
| Bytes.Image64 | struct.c:142 | the eight bytes a store of a double's image leaves in memory in order o; its contract gives the length 8, and Image64Load64 pins it down |
| Bytes.Load64 | struct.c:258-263 | the 64-bit load of a double's image in order o; it carries no contract, and Image64Load64 pins it down |
| Bytes.Image16Load16 | struct.c:181 | storing a 16-bit value in memory and loading it again in the same order gives it back, and the other way round |
| Bytes.Image32Load32 | struct.c:136 | the same for 32-bit values, which also applies to a float's bit image |
| Bytes.Image64Load64 | struct.c:142 | the same for 64-bit values, which also applies to a double's bit image |
| Bytes.ReadRanges | struct.c:288-307 | the numbers read from 16- and 32-bit fields lie in the signed or unsigned range of their C type |
| Lua.CheckInteger | struct.c:123 | luaL_checkinteger succeeds exactly on an integer, returns it, and otherwise fails naming the slot |
| Lua.CheckString | struct.c:155 | luaL_checklstring succeeds exactly on a string, returns its bytes, and otherwise fails naming the slot |
| Lua.CheckSingle | struct.c:135 | luaL_checknumber for f succeeds exactly on a float value (kept as its 32-bit image), returns it, and otherwise fails naming the slot |
| Lua.CheckDouble | struct.c:141 | luaL_checknumber for d succeeds exactly on a double value (kept as its 64-bit image), returns it, and otherwise fails naming the slot |
| Lua.ToBoolean | struct.c:147 | lua_toboolean is false exactly for nil and false |
| Format.DigitRunEnd | struct.c:156-163 | the end of the run of digits that starts at i: every character before it is a digit, the one at it is not |
| Format.Scan | struct.c:101-206 | one switch case: an unknown character fails naming it; every directive but s is one character; s extends over the digit run that follows |
| Format.ScanAccepts | struct.c:205-206 | a directive starts at i exactly when the character is one of the fourteen that pack and unpack know |
| Format.ReadLength | struct.c:156-163 | the digit loop leaves the position on the last digit (on s itself when there is none) and returns the decimal value of the digits |
| Format.TokenizeErrors | struct.c:310-311 | when a format does not tokenize, the error names a character of it that is unknown |
| Cursor.Cursor.Avail | struct.c:82-91 | avail fails, with nothing moved, when fewer than needed bytes are left; otherwise it returns the old position, advances it by needed and takes needed from the count |
| Codec.NextOrder | struct.c:102-113 | only <, > and @ change the byte order in force |
| Codec.StringField | struct.c:164-174 | the field for sN has exactly N bytes: the string's bytes, cut at N or followed by zero bytes |
| Codec.PackDirective | struct.c:114-204 | a directive's field has exactly its width; pack fails only on a directive that takes a value, naming its slot |
| Codec.Decode | struct.c:235-309 | unpack pushes one value for each directive that takes one, and none for markers, x and s0 |
| Codec.UnpackDirective | struct.c:237 | reading a directive fails exactly when fewer bytes are left than its width, asking for that width; otherwise it consumes exactly its width |
| Struct.AddField | struct.c:164-174 | the loop that copies or pads the string builds the field StringField describes |
| Struct.PackByte | struct.c:121-132 | the b and B cases append what PackDirective gives, or fail as it does |
| Struct.PackFloat | struct.c:133-144 | the f and d cases append what PackDirective gives, or fail as it does |
| Struct.PackString | struct.c:151-176 | the s case reads the length, appends the field and leaves the position on the last digit |
| Struct.PackShort | struct.c:177-190 | the h and H cases append the swapped short's bytes, which are those PackDirective gives |
| Struct.PackInt | struct.c:191-204 | the i and I cases append the swapped int's bytes, which are those PackDirective gives |
| Struct.PackStep | struct.c:100-208 | one pass of the switch that does what PackDirective says leaves the rest of pack to PackFrom from the next position |
| Struct.PackItem | struct.c:101-207 | one pass of pack's switch does what PackFrom says of the directive at i, including the error for an unknown character |
| Struct.Pack | struct.c:94-211 | pack returns exactly PackSpec: the bytes or the first error |
| Struct.MarkerCaseMeaning | struct.c:223-234 | a marker sets the order, pushes nothing and consumes no byte, as UnpackFrom says |
| Struct.UnpackByte | struct.c:235-251 | the x, b, B and ? cases take one byte through avail and push what Decode says |
| Struct.ByteCaseMeaning | struct.c:235-268 | what the one-byte cases do is what UnpackFrom says |
| Struct.UnpackFloat | struct.c:252-263 | the f and d cases take 4 or 8 bytes through avail and push their bit image loaded natively |
| Struct.FloatCaseMeaning | struct.c:252-263 | what the f and d cases do is what UnpackFrom says |
| Struct.UnpackString | struct.c:269-285 | the s case reads the length and takes and pushes that many bytes, or nothing for s0 |
| Struct.StringCaseMeaning | struct.c:269-285 | what the s case does is what UnpackFrom says |
| Struct.UnpackShort | struct.c:286-297 | the h and H cases take two bytes and push the swapped short read as signed or unsigned |
| Struct.ShortCaseMeaning | struct.c:286-297 | what the h and H cases do is what UnpackFrom says |
| Struct.UnpackInt | struct.c:298-309 | the i and I cases take four bytes and push the swapped int read as signed or unsigned |
| Struct.IntCaseMeaning | struct.c:298-309 | what the i and I cases do is what UnpackFrom says |
| Struct.UnpackItem | struct.c:222-312 | one pass of unpack's switch does what UnpackFrom says of the directive at i, moving the cursor and the order as it does |
| Struct.Unpack | struct.c:214-315 | unpack returns exactly UnpackSpec: the values and the count, or the first error |
| Struct.SizeStep | struct.c:323-362 | one pass of size's switch that does what SizeFrom says of the directive leaves the rest of size to SizeFrom from the next position |
| Struct.SizeItem | struct.c:323-362 | one pass of size's switch adds the width of the directive at i and fails on x, ? and unknown characters |
| Struct.Size | struct.c:318-366 | size returns exactly SizeSpec: the total or the first error |
| Properties.PackLength | struct.c:100-208 | what pack makes has exactly the summed width of the format's directives |
| Properties.SizeOfDirectives | struct.c:318-366 | size succeeds exactly when the format tokenizes without x or ?, and then returns the sum of the widths |
| Properties.SizeErrors | struct.c:360-361 | when size fails, its error names a character of the format outside formatchars |
| Properties.SizeIsPackLength | struct.c:318-366 | when size and pack both succeed, size is the length of what pack makes |
| Properties.EmptyStringsAreValues | struct.c:280-284 | the s0 directives are among those that unpack counts |
| Properties.UnpackCount | struct.c:221-314 | unpack's count is the number of directives that take a value, and it pushes that many values less one per s0 |
| Properties.UnpackNeedsTotalWidth | struct.c:82-91 | on a format that tokenizes, unpack succeeds exactly when the data has at least the summed width |
| Properties.PackDirectiveAccepts | struct.c:121-204 | a directive's field is produced exactly when its slot's value has the type its check demands |
| Properties.PackSucceeds | struct.c:94-211 | on a format that tokenizes, pack succeeds exactly when every directive that takes a value accepts the value in its slot |
| Properties.DecodePacked | struct.c:235-309 | decoding the field pack stores for a directive gives the value cast to the field's type, the value's truth for ?, the string cut or padded for sN, the bit image for f and d |
| Properties.PackIsPackAll | struct.c:100-208 | pack over a format equals pack over its directive list |
| Properties.UnpackIsUnpackAll | struct.c:221-313 | unpack over a format equals unpack over its directive list |
| Properties.UnpackAfterPack | struct.c:235-309 | unpack of a directive over the field pack wrote for it, followed by any bytes, yields that directive's value and consumes exactly its field |
| Properties.RoundTripAll | struct.c:94-315 | over a directive list, unpack of what pack makes, followed by any bytes, gives every value back as cast or padded, with the count |
| Properties.RoundTrip | struct.c:94-315 | unpack of what pack makes, followed by any bytes, succeeds, gives back every value pack took as cast or padded, and counts them |
| Properties.YieldCanonical | struct.c:121-309 | a canonical value comes back unchanged through its directive |
| Properties.ExpectedCanonical | struct.c:94-315 | with canonical values and no s0, what unpack gives back is exactly the values of the slots pack read |
| Properties.CanonicalRoundTrip | struct.c:94-315 | unpack(fmt, pack(fmt, v1..vn)) returns v1..vn and their count when every value is canonical for its directive and no s0 occurs |
| Properties.SlotsArePrefix | struct.c:100 | n filled slots from slot 2 on are the first n arguments |
| Properties.PackDirectiveReadsOnlyItsSlot | struct.c:121-204 | a directive's field depends only on the value in its own slot |
| Properties.PackAllReadsOnlyItsSlots | struct.c:100-208 | pack of a directive list depends only on the slots its directives take |
| Properties.PackReadsOnlyItsArguments | struct.c:94-211 | two argument lists that agree on the slots the format takes give the same pack result |
| Properties.UnknownCharacter | struct.c:205-206 | an unknown character makes pack, unpack and size fail with an error naming it, whatever follows |
| Properties.SizeRefusesPadAndBool | struct.c:323-362 | size refuses x and ?, which pack and unpack accept |
| Properties.MarkerTakesNoArgument | struct.c:102-113 | <, > and @ set pack's order and take no argument and no byte |
| Properties.MarkerTakesNoByte | struct.c:223-234 | <, > and @ set unpack's order and take no byte and no place in the count |
| Properties.MarkerHasNoSize | struct.c:324-327 | <, > and @ add nothing to size |
| Properties.PadTakesNoValue | struct.c:114-120 | x writes one zero byte without taking an argument, and unpack skips one byte, failing when none is left, without counting it |
| Properties.EmptyStringQuirk | struct.c:280-284 | s0 still demands a string and takes its slot in pack; unpack counts it and pushes nothing |
| Properties.PackMarkedField | struct.c:100-208 | pack of a marker followed by one directive is that directive's field under the marker's order |
| Properties.BigShortQuirk | struct.c:59-68 | pack(">h", n) is n's bytes big-endian on a little-endian build but little-endian on a big-endian one |
| Properties.LittleShort | struct.c:59-68 | pack("<h", n) is n's two low-order bytes little-endian on either build |
| Properties.BigInt | struct.c:70-79 | pack(">i", n) is n's four low-order bytes big-endian on either build |
| Properties.LittleInt | struct.c:70-79 | pack("<i", n) is n's four low-order bytes little-endian on either build |

## Left out

- The Lua stack API is reduced to its inputs and outputs. This covers `luaL_checkstring`,
  `luaL_Buffer` and the pushes. The format and unpack's data string are parameters, pack's
  arguments are a sequence for slots 2 onwards, and a Lua error is an `Err` result.
- Which stack slots unpack's returned count refers to is not modelled. The count is
  returned as a number (struct.c:314). With `s0` it exceeds the values pushed, so the C caller
  also receives a value from below them; the model states the count and the values separately.
- Lua's coercions are not modelled. `luaL_checkinteger` accepting a numeric string or an
  integral float, for instance, is left out: each check accepts only its own kind of value
  (`Lua.CheckInteger` and the others).
- Floating point is not modelled. `f` and `d` store and read the bit image of a number that
  is already a float or a double (`Lua.Value.SingleNumber` and `DoubleNumber`). The
  conversion of a Lua number to `float` or `double`, and back, is not part of the model.
- Codec.Decode: the values read for f and d are bit images, not numbers, so a NaN's payload
  and the rounding of a Lua number to float are outside the model.
- Detecting the native byte order at compile time (struct.c:34-46) is not modelled. It is
  the parameter `native`.
- The C type sizes are fixed at `sizeof(short) == 2`, `sizeof(int) == 4`,
  `sizeof(float) == 4` and `sizeof(double) == 8`. Plain `char` is taken to be signed, which
  decides what `b` reads.
- `lua_Integer` is assumed to hold every `int` and `unsigned int`, that is to be at least 64
  bits wide (`Lua.Value.Integer` is unbounded). Where it is 32 bits, as on a Lua 5.1 build
  for i386, `luaL_checkinteger` (struct.c:194-201) cannot deliver 2^31 or more and
  `lua_pushinteger` of an `unsigned int` (struct.c:306-307) turns 0xFFFFFFFF into -1, so
  there `I` does not round-trip the values from 2^31 to 2^32 - 1 that
  `Properties.CanonicalRoundTrip` treats as canonical.
- Overflow of the C `int` that accumulates the digits after `s` is not modelled, because
  lengths are unbounded natural numbers. The same goes for the `size_t` total in `size`.
- Format.ReadLength: computes the length as an unbounded natural, while the C loop overflows
  an `int` on more than nine or ten digits.
- Aliasing and alignment of the casts `*((unsigned short*) ptr)` and the like are not
  modelled. Memory is a sequence of bytes and a load is a function of the bytes read.
- Registration of the module and its `_VERSION`, `byteorder` and `formatchars` fields
  (struct.c:368-402) are not modelled. They only publish the three functions and constants.
