# Verified model of yinka-utils: the MD5 engine and the configuration reader

The project models two components of yinka-utils and proves what they compute.

**The incremental MD5 engine** (`src/utils/md5.c`, `src/utils/md5.h`). `Codec.dfy` holds the little-endian
codec, `Addition.dfy` the 32-bit sum and the number it holds, `Rounds.dfy` the 64 steps of RFC 1321, section 3.4, as
one table-driven loop, `Transformation.dfy` the 64 macro calls of `MD5Transform`, `Digest.dfy` the digest of a whole
message (RFC 1321, section 3) with the value a context must hold after receiving part of it, and `Context.dfy` the
mutable context with `MD5Init`, `MD5Update` and `MD5Final`. `Runs.dfy` adds whole runs over any list of chunks. The
main result is that every run of the in-place engine gives the one-shot digest of the concatenated input. It holds
for every chunk list on which the 32-bit test of the block loop is right, and the exact condition for that is part of
the contract of `MD5Update`.

**The configuration reader** (`src/utils/config_read.c`). `CStrings.dfy` holds NUL-terminated character arrays,
the library functions that the reader calls and the three trimming functions, `Lookup.dfy` the lookup as a function
of the file's text together with its declarative reading, `ConfigReader.dfy` the scan of `conf_read` in 256-byte
buffers, `ConfigLaws.dfy` what insertions and later text can change, and `ConfigPrinter.dfy` a printer for the form
of `data/yinkad.conf` and the proof that every value is read back.

## How the C is represented

- A message byte is a `bv8` and a state or message word a `bv32`, so `&`, `|`, `~`, `^`, shifts and wrapping `+` are
  the machine operations. The two halves of the bit count, the chunk length and the loop index are numbers below
  2^32 on which every addition that can wrap is reduced modulo 2^32, `<< 3`, `>> 3` and `>> 29` are multiplication
  and division, and `& 0x3F` is the remainder by 64. `WordOf` carries a count half over to the word that
  `MD5Encode` reads.
- A pointer into a buffer is the array with an offset. `MD5Update` returns whether the block loop stays inside its
  input: where the 32-bit sum `i + 64` wraps, the C loop reads past the input, and the model stops there with false.
- `MD5Transform` is one C function; here its four rounds are four methods that `Transform` calls in turn, so that
  each proof stays small. The parts of `MD5Update` and the loop body of `conf_read` are methods of their own for the
  same reason.
- The statement `hide` keeps a definition out of a proof that does not need it.
- `fgets` reads from the text of the file at an offset, and `fopen` failing is a missing text.

Where the code departs from what its comments or callers suggest, the code is followed: comments and values longer
than one 255-character piece are continued as new lines, a key scanset that was meant to stop at `=` and blanks also
stops at `|` and `^`, and an empty value leaves the old contents of the caller's buffer in place.

## Model

| member | source | states |
|---|---|---|
| Codec.DecodeEncode | src/utils/md5.c:80-108 | decoding undoes encoding, for word sequences of every length |
| Codec.EncodeDecode | src/utils/md5.c:80-108 | encoding undoes decoding, for byte strings of every multiple of four |
| Codec.DecodeIsPositional | src/utils/md5.c:95-108 | each decoded word is the base-256 value of its four bytes, low-order byte first (RFC 1321, section 2) |
| Codec.LittleEndianBytesValue | src/utils/md5.c:80-93 | the k low-order bytes of a number denote that number modulo 256^k |
| Codec.EncodeCounter | src/utils/md5.c:74 | encoding the two halves of the count gives the eight little-endian bytes of the 64-bit number |
| Codec.Encode | src/utils/md5.c:80-93 | the loop writes exactly the encoding of the words it covers, a length that is no multiple of four being rounded up, and leaves the rest of the output alone |
| Codec.Decode | src/utils/md5.c:95-108 | the loop writes exactly the decoding of the bytes from the given offset and leaves the rest of the output alone |
| Addition.SumValue | src/utils/md5.c:190-193 | the wrapping 32-bit sum of two words holds the sum of their numbers modulo 2^32 |
| Rounds.FSelects | src/utils/md5.h:27 | F takes the bits of y where x has ones and those of z where x has zeros |
| Rounds.GSelects | src/utils/md5.h:28 | G takes the bits of x where z has ones and those of y where z has zeros |
| Rounds.HIsParity | src/utils/md5.h:29 | H is bitwise parity: it is 0 at 0, and flipping any bits of any one argument flips just those bits of the result |
| Rounds.ISelects | src/utils/md5.h:30 | I is the exclusive or of x and y where z has ones and the complement of y where z has zeros |
| Rounds.RotationMovesBits1 | src/utils/md5.h:31 | rotating by the amounts of round 1 moves every bit k to bit k + n modulo 32 |
| Rounds.RotationMovesBits2 | src/utils/md5.h:31 | the same for the amounts of round 2 |
| Rounds.RotationMovesBits3 | src/utils/md5.h:31 | the same for the amounts of round 3 |
| Rounds.RotationMovesBits4 | src/utils/md5.h:31 | the same for the amounts of round 4 |
| Rounds.ForwardComputes | src/utils/md5.h:33-52 | as numbers modulo 2^32, a step sums the register, the mixed value, the word and the constant, rotates the sum, and adds b |
| Rounds.CompressAdds | src/utils/md5.c:190-193 | each state word after the compression is, modulo 2^32, its old value plus the register that holds its place after all 64 steps from the old state on the decoded block |
| Rounds.RotationsCancel | src/utils/md5.h:31 | rotating left and right by the same amount cancel in both orders, for each of the sixteen amounts that occur |
| Rounds.StepThenUnstep | src/utils/md5.h:33-52 | every step can be undone from the registers after it and the block |
| Rounds.UnstepThenStep | src/utils/md5.h:33-52 | every register state is reached by the step from the undone state |
| Rounds.RunThenUnrun | src/utils/md5.c:118-189 | for a fixed block any run of steps, all 64 among them, is injective: undoing it recovers the registers |
| Rounds.UnrunThenRun | src/utils/md5.c:118-189 | and surjective, with the same inverse |
| Rounds.StepUsingIsInverse | src/utils/md5.c:120-189 | in each round every message word is consumed by exactly one step, the one given by the inverse index map modulo 16 |
| Rounds.RoundDeterminesWords | src/utils/md5.c:120-189 | the registers before any one round and the 16 values it produces determine all 16 message words |
| Rounds.RoundDeterminesBlock | src/utils/md5.c:118-189 | and encoding those words gives back the 64-byte block |
| Transformation.StepMacroIsForward | src/utils/md5.h:33-52 | the three assignments of a step macro compute b + ((a + mix + x + t) <<< s) |
| Transformation.MacrosCompute | src/utils/md5.h:33-52 | FF mixes with F, GG with G, HH with H and II with I, and each adds as numbers modulo 2^32 on both sides of the rotation |
| Transformation.FourRounds | src/utils/md5.c:120-189 | the four rounds in turn are the 64-step run |
| Transformation.Schedule1 | src/utils/md5.c:120-135 | the word, rotation and constant written at each step of round 1 are those of the index formula and tables of RFC 1321, section 3.4 |
| Transformation.Schedule2 | src/utils/md5.c:138-153 | the same for round 2, with word (1 + 5i) mod 16 |
| Transformation.Schedule3 | src/utils/md5.c:156-171 | the same for round 3, with word (5 + 3i) mod 16 |
| Transformation.Schedule4 | src/utils/md5.c:174-189 | the same for round 4, with word 7i mod 16 |
| Transformation.Round1 | src/utils/md5.c:120-135 | the written-out steps with rotating register roles equal steps 0 to 15 of the table-driven loop |
| Transformation.Round2 | src/utils/md5.c:138-153 | they equal steps 16 to 31 |
| Transformation.Round3 | src/utils/md5.c:156-171 | they equal steps 32 to 47 |
| Transformation.Round4 | src/utils/md5.c:174-189 | they equal steps 48 to 63 |
| Transformation.Transform | src/utils/md5.c:110-194 | the state array becomes the RFC 1321 compression of the old state and the block at the offset; what that adds to the old words, and what it mixes, is stated by the rows above |
| Digest.InitialBytes | src/utils/md5.c:32-35 | the initial state is the sixteen bytes 01 23 45 67 89 ab cd ef fe dc ba 98 76 54 32 10 that RFC 1321, section 3.3, lists |
| Digest.FoldAppend | src/utils/md5.c:52-60 | compressing a concatenation of whole blocks is compressing the parts in turn |
| Digest.FoldOneMore | src/utils/md5.c:52-60 | a further block is compressed into the state that the blocks before it have left |
| Digest.PadLengthIsLeast | src/utils/md5.c:73 | no smaller positive padding brings the length to 56 modulo 64 |
| Digest.PadIs | src/utils/md5.c:72-76 | a padded message is whole blocks: the message, a byte 128, at most 63 zero bytes, and eight bytes whose little-endian value is the bit count modulo 2^64 |
| Digest.UnpadPad | src/utils/md5.c:72-76 | the padded form decodes to the message, for messages of every length, beyond 2^61 bytes too |
| Digest.PadInjective | src/utils/md5.c:72-76 | messages of any lengths with equal padded forms are equal |
| Digest.OutputIsPositional | src/utils/md5.c:77 | the digest bytes are the four state words in order, each low-order byte first |
| Digest.AbsorbSplit | src/utils/md5.c:38-65 | from any context, absorbing x then y leaves the count, chaining state and live buffer bytes that absorbing x + y leaves |
| Digest.AbsorbAllIsAbsorb | src/utils/md5.c:38-65 | however a message is cut into chunks, the context ends as if it had come in one piece |
| Digest.Reachable | src/utils/md5.c:38-65 | in every reachable context the count is 8 times the length modulo 2^64, the state is the fold of the complete blocks and the buffer holds the remaining tail |
| Digest.FinishDrains | src/utils/md5.c:67-78 | from any consistent context the final call empties the buffer, having compressed exactly one block if the index is below 56 and two otherwise |
| Digest.StreamedDigest | src/utils/md5.c:28-78 | any sequence of updates and the final call put out the one-shot digest of the concatenation |
| Context.CountAdvances | src/utils/md5.c:46-50 | the unsigned comparison detects the carry exactly and the two shifts lose nothing: the split count becomes its old value plus 8n modulo 2^64 |
| Context.LoopGuardExact | src/utils/md5.c:56 | the 32-bit loop test agrees with the unbounded one while a block is left; after the last block it errs exactly when the chunk does not fit |
| Context.ChunkFitsAnywhere | src/utils/md5.c:44-56 | a chunk length is safe from every buffer position exactly when it is at most 2^32 - 65; 2^32 - 64 bytes into an empty buffer are not |
| Context.PadLengthOfIndex | src/utils/md5.c:72-73 | the two branches of the padding length give the least positive padding |
| Context.Md5Context.Init | src/utils/md5.c:28-36 | both count words are 0 and the state words are the four constants, written out; so the context stands for the empty message |
| Context.Md5Context.CountBytes | src/utils/md5.c:46-50 | the two count words together advance by 8 times the length modulo 2^64 |
| Context.Md5Context.TransformBlocks | src/utils/md5.c:52-59 | the loop compresses exactly the complete blocks of pending and new bytes, leaves fewer than 64 bytes, and stays inside the input exactly when the chunk fits |
| Context.Md5Context.FillBuffer | src/utils/md5.c:52-64 | both branches leave the chaining state and live buffer bytes of the absorbed message |
| Context.Md5Context.Update | src/utils/md5.c:38-65 | the context absorbs the input exactly, and it fails exactly when the length plus the buffer position (64 if that is 0) reaches 2^32 |
| Context.Md5Context.EncodeCount | src/utils/md5.c:74 | the length bytes are the little-endian count from before the padding |
| Context.Md5Context.Final | src/utils/md5.c:67-78 | the context absorbs the padding and the old count, and the digest array holds the encoded chaining state |
| Runs.DigestOfChunks | src/utils/md5.c:28-78 | a whole run of the engine over any chunk list gives the RFC 1321 digest of the concatenation, and fails exactly when some chunk does not fit at its position |
| CStrings.StrLen | src/utils/config_read.c:45 | the length counts the characters before the first NUL |
| CStrings.StringEnds | src/utils/config_read.c:32 | a string ends before the first character of code 0, whatever follows it |
| CStrings.TrimmedCodes | src/utils/config_read.c:32-58 | a character is trimmed from either end exactly when its code is 9, 10, 11, 12, 13 or 32, and the trimming then goes on with the rest |
| CStrings.TrimIsTrimmed | src/utils/config_read.c:52-63 | trimming removes only a prefix and a suffix of white space and leaves non-space ends or nothing |
| CStrings.TrimmedUnique | src/utils/config_read.c:52-63 | no other contiguous substring qualifies |
| CStrings.TrimCommutes | src/utils/config_read.c:27-63 | left-then-right trimming equals right-then-left trimming |
| CStrings.TrimIdempotent | src/utils/config_read.c:52-63 | trimming twice is trimming once |
| CStrings.TrimEmptyIffSpace | src/utils/config_read.c:52-63 | nothing is left exactly when every character is white space, the empty string included |
| CStrings.LeftSpaceRemove | src/utils/config_read.c:27-36 | the output holds the input string without its leading white space |
| CStrings.CutSpace | src/utils/config_read.c:58-61 | the backward loop cuts exactly the trailing white space, for the empty and the all-space string too |
| CStrings.RightSpaceRemove | src/utils/config_read.c:38-50 | the output holds the input string without its trailing white space |
| CStrings.AllSidesSpaceRemove | src/utils/config_read.c:52-63 | the output holds the trimmed input string |
| Lookup.PieceOfLine | src/utils/config_read.c:82 | of n characters and a newline a piece takes min(n + 1, 255), and of n characters without one min(n, 255) |
| Lookup.KeyEnds | src/utils/config_read.c:111 | the key token ends before the first `=`, vertical bar, `^`, space or tab, at no other character, and otherwise with the line |
| Lookup.TextStarts | src/utils/config_read.c:107-113 | the text begins right after the first `=` |
| Lookup.ScanSelects | src/utils/config_read.c:82-133 | the state machine succeeds exactly when some line between the first matching header and the next header is an entry whose key token equals the key, and yields the text of the first such line |
| Lookup.KeysFitExact | src/utils/config_read.c:109-111 | the 32-byte key buffer is not overrun exactly when every entry that is compared has a token of at most 31 characters |
| ConfigReader.Fgets | src/utils/config_read.c:82 | a piece runs through the first newline but at most 255 characters, stated on the characters of the file, and none is got exactly at the end |
| ConfigReader.EntryFor | src/utils/config_read.c:107-112 | a line is taken exactly when it contains `=` and its key token equals the key |
| ConfigReader.StoreValue | src/utils/config_read.c:113-123 | the buffer ends with the text up to the newline, trimmed if that leaves anything; with no text, with its old contents so treated |
| ConfigReader.ScanLine | src/utils/config_read.c:84-131 | one turn of the loop makes the step of the state machine, and changes the value buffer only on a match |
| ConfigReader.ConfRead | src/utils/config_read.c:65-140 | it returns 0 exactly when the lookup finds the key and then the buffer holds the stored value; otherwise it returns -1 and leaves the buffer unchanged |
| ConfigLaws.LinesAppend | src/utils/config_read.c:82-85 | whole lines are scanned independently of the text after them |
| ConfigLaws.InsertionLaw | src/utils/config_read.c:82-132 | inserted whole lines change no lookup of any key in any file exactly when each of their pieces is neither a header nor an entry |
| ConfigLaws.CommentInsertion | src/utils/config_read.c:84-104 | so a blank line or `#` comment of at most 255 characters changes nothing, wherever it is inserted |
| ConfigLaws.LongCommentIsObservable | src/utils/config_read.c:82-104 | a longer comment line can change a lookup: its second piece may be a header |
| ConfigLaws.AfterTheSection | src/utils/config_read.c:102-104 | after a header that follows the section's own, no text changes the lookup |
| ConfigLaws.StoredText | src/utils/config_read.c:113-119 | text with a non-space character is stored as its unique trimming, text of white space only as it stands |
| ConfigLaws.StoredWithoutText | src/utils/config_read.c:113-119 | with no text, the old contents are trimmed in the same way, or stay as they are if they are white space only |
| ConfigLaws.StoredIgnoresBefore | src/utils/config_read.c:113-119 | the stored value depends on the file alone exactly when some text follows the `=` |
| ConfigPrinter.HeaderMatches | src/utils/config_read.c:80-95 | a printed header matches exactly the section name it was printed for, whatever name is asked for |
| ConfigPrinter.KeyLineParsed | src/utils/config_read.c:107-113 | a printed entry parses to its key and its value, which may contain `=` |
| ConfigPrinter.PrintThenFind | src/utils/config_read.c:65-140 | in a printed configuration every query finds exactly what the data hold, first section and first key winning, with the exact value stored and no key overrunning its buffer |
| ConfigPrinter.RoundTrip | data/yinkad.conf:1-15 | with distinct section names and keys, every stored entry of a printed configuration is read back exactly |

## Left out

- Allocation failure in `conf_read` (the value then stays untrimmed), the messages it prints and `fseek`.
- ConfigReader.ConfRead: the fixed-size `appname` and `keyname` arrays and the caller's buffer are bounds in its contract, beyond which C writes past them: a section name of at most 29 characters, key tokens of at most 31 where they are compared, and a value buffer of 256.
- Characters outside the C locale: `isspace` is true of the space and of the codes 9 to 13 only.
- Context.Md5Context.Update: what happens after the block loop has read past its input is undefined in C and is not modelled; the model only says exactly when that happens.
- Codec.Encode: lengths above 2^32 - 4, for which the byte index of the C loop wraps, are excluded.
- Codec.Decode: lengths that are no multiple of four are excluded, as the engine only decodes 64 bytes.
- The derivation of the 64 constants from the sine function; they are a table.
- The callers of the two components, the updater and the daemon (downloads, XML, sockets, process control, the keep-alive counters), and the modules reading `/proc` and `pidof`: input, output and single easy loops around system calls.
