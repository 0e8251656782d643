# Obfuscation scanner of the decompile endpoint

After CFR has decompiled an uploaded jar, the decompile endpoint of `server.js` turns the
decompiled `.java` files into its response. This project models that step and proves its
properties. Each file goes through the same steps:

- An oversized file is truncated to 500000 characters and marked.
- Two global `g`-flagged patterns are searched with `exec` loops:
  - long Base64 runs, decoded and printed as ASCII;
  - `new byte[]{…}` literals, whose numbers become bytes decoded as UTF-8.
- Every decoded string that passes its recogniser's acceptance test becomes an
  `[AUTO-ANALYSIS]` line. If there is at least one line, the lines are appended to the file
  in a single warning comment block.
- A file is flagged suspect when a case-insensitive keyword list matches its final content,
  or when something was recovered from it.

The entries are then sorted, suspect files first and then by path, and capped at 2000.

The project has one module per concern:

- `JsText`: the JavaScript primitives the scanner relies on: whitespace, `trim`, `split`,
  `parseInt`, ToUint8.
- `Utf8`: `buf.toString('utf8')` with U+FFFD replacement.
- `Keywords`: the suspect keyword test.
- `Base64`: the Base64 recogniser.
- `ByteArray`: the byte-array recogniser.
- `Annotation`: the annotation lines and the warning block.
- `Scanner`: the per-file scan.
- `Report`: the order, the cap and the endpoint loop.

Each of the two `g`-flagged patterns is modelled as a hand-written matcher:

- Its soundness is proved against a declarative description of the pattern.
- Its completeness is proved too, differently for each pattern:
  - The Base64 matcher finds the longest match at a position, and every alphabet run of
    40 or more characters yields a match.
  - The byte-array matcher finds exactly the match the pattern has at a position, and
    `exec` returns the leftmost one from the cursor.

The three patterns that are only used with `test` are modelled as existential predicates
over the text, with no matcher:

- the keyword alternation: `Keywords.IsSuspicious`;
- the Base64 allowlist: `Base64.Accepts`;
- the run of five characters: `ByteArray.Accepts`.

Each `g`-flagged regex object is a class whose state is its `lastIndex` cursor. The two
`while (exec)` loops are methods proved against specification functions of the whole scan.
`Report.Decompile` is the endpoint's loop over the files. Its result is proved equal to the
sort and cap of the entries.

Inputs and outputs:

- The decompiled files are an input. Each is a relative path with either its text or a read
  failure.
- The response's `files` array is the output.

A Base64 candidate needs at least ten groups of four characters (`{10,}`, 40 characters).

## Model

| member | source | states |
|---|---|---|
| Scanner.TruncateShape | server.js:87-89 | a file of at most 500000 characters is scanned unchanged; a longer one becomes exactly its first 500000 characters followed by the truncation marker, so the scanned text is never longer than 500000 plus the marker |
| Scanner.TruncateIgnoresTail | server.js:87-89 | two oversized files that agree on their first 500000 characters are scanned as the same text: nothing past the cut is ever scanned |
| Scanner.TruncateIdempotent | server.js:87-89 | truncating an already truncated text changes nothing |
| Keywords.CaseInsensitive | server.js:74 | two texts that differ only in the case of ASCII letters get the same verdict from the `i`-flagged keyword test |
| Keywords.CaseConversionInvariant | server.js:74 | upper-casing or lower-casing the whole text never changes the verdict |
| Keywords.ExtensionPreservesMatch | server.js:74 | text added before or after a matching text keeps it matching, so appending can only turn a negative verdict into a positive one |
| Keywords.ContainingKeywordIsSuspicious | server.js:74 | any text containing one of the fourteen keywords, as written or lower-cased, matches |
| Keywords.ToUpperAscii | server.js:74 | the upper-cased text has the same case-folded characters as the input and no lower-case ASCII letter |
| Base64.RunLength | server.js:77 | the run at a position is all alphabet characters and stops at the end of the text or at a character outside `[A-Za-z0-9+/]` |
| Base64.MatchAt | server.js:77 | an attempt of the Base64 pattern that succeeds covers at least 40 characters and stays inside the text |
| Base64.MatchAtSound | server.js:77 | what an attempt matches is a text of the pattern (ten or more groups of four, then optional `xx==` or `xxx=` padding) and is well-formed Base64 |
| Base64.MatchAtIsLongest | server.js:77 | every prefix the pattern matches at a position ends no later than the attempt there: the match is maximal from its start |
| Base64.MatchEndsInPadding | server.js:77 | a match extends beyond its alphabet run by padding characters only, at most two of them |
| Base64.MatchCoversGroups | server.js:77 | a run of at least ten whole groups of alphabet characters is always matched at least in full |
| Base64.MatchTakesPadding | server.js:77 | alphabet characters followed by one or two `=` that complete a group are matched together with the padding |
| Base64.Base64Regex.constructor | server.js:77 | a fresh pattern object starts its search at position 0 |
| Base64.NextMatch | server.js:99 | `exec` from `lastIndex` returns a match that starts at or after the cursor and is the pattern's match at that position |
| Base64.NextMatchIsLeftmost | server.js:99 | no match of the pattern starts between the cursor and the match `exec` returns, nor anywhere after the cursor when it returns none |
| Base64.Base64Regex.Exec | server.js:99 | `exec` returns the leftmost match from the cursor and moves the cursor to its end, or back to 0 when there is none |
| Base64.Candidates | server.js:99 | the matches of a search loop are each at least 40 characters long, inside the text, in increasing order and pairwise disjoint |
| Base64.CandidatesMatch | server.js:99 | every match the loop yields is a match of the pattern at its own start |
| Base64.MatchEndResumes | server.js:99 | after a match the search resumes where no match could continue the same alphabet run |
| Base64.CandidatesStartRuns | server.js:99 | every match of a loop started at 0 starts where an alphabet run starts, so it is the maximal whole-group prefix of that run |
| Base64.NextMatchReachesRun | server.js:99 | a search that starts before an alphabet run of 40 or more characters finds a match no later than the start of that run |
| Base64.CandidatesComplete | server.js:99 | every alphabet run of 40 or more characters gives a match that starts where the run starts: no long run is missed |
| Base64.SextetChar | server.js:101 | the alphabet character of a six-bit value is an alphabet character whose value is that number |
| Base64.BytesOfSextets | server.js:101 | splitting three bytes into four six-bit values and joining them again gives the bytes back |
| Base64.SextetsOfBytes | server.js:101 | joining four six-bit values into three bytes and splitting them again gives the values back |
| Base64.Decode | server.js:101 | `Buffer.from(t, 'base64')` on well-formed text gives three bytes per group of four, less one byte per padding character |
| Base64.Encode | server.js:101 | the standard encoding of n bytes is well-formed, `4 * ceil(n / 3)` characters long, and padded with `(3 - n % 3) % 3` `=` characters |
| Base64.DecodeEncode | server.js:101 | decoding undoes encoding, for every byte sequence |
| Base64.EncodeDecode | server.js:101 | re-encoding the bytes of any well-formed text gives a text of the same length that agrees with it everywhere except possibly the character just before the padding, and equals it when there is no padding |
| Base64.AsciiTextIsAscii | server.js:101 | the text `toString('ascii')` produces is pure ASCII, and an ASCII byte comes out as its own character |
| Base64.AsciiTextIgnoresTopBit | server.js:101 | byte sequences that differ only in bit 7 give the same text, so the acceptance test cannot tell them apart |
| Base64.Decoded | server.js:101 | every match decodes to at least 30 characters, so the `length > 5` test never rejects one |
| Base64.AcceptedIffAllowed | server.js:103 | a match yields an annotation line exactly when every character of its decoded text is in the allowlist |
| Base64.RecoverOne | server.js:103-105 | a match contributes exactly one finding, holding its decoded text, when that text is all allowlisted, and none otherwise |
| Base64.Recover | server.js:103-105 | every recovered finding is a Base64 finding whose text passes the acceptance test, and there are never more findings than decoded texts |
| Base64.RecoverAppend | server.js:99-107 | the findings of two consecutive lists of matches are those of the first followed by those of the second: findings are in match order |
| Base64.FindingsStep | server.js:99-107 | with no further match there are no further findings; otherwise the findings are those of the returned match followed by those found from its end |
| Base64.Findings | server.js:99-107 | every Base64 finding of a text is tagged as Base64 and passes the acceptance test |
| ByteArray.SpaceRun | server.js:79 | a greedy `\s*` takes exactly the whitespace up to the first non-whitespace character |
| ByteArray.BodyRun | server.js:79 | a greedy `[0-9\s,-]+` takes exactly the body characters up to the first character outside the class |
| ByteArray.RunSound | server.js:79 | what the greedy token-by-token match of the literal's head finds is a way the head matches |
| ByteArray.RunComplete | server.js:79 | when no gap of the head can be followed by whitespace, any way the head matches is the one the greedy match finds, so greediness loses no match |
| ByteArray.ReadBodyComplete | server.js:79 | a body of body characters followed by `}` is always read whole |
| ByteArray.MatchAt | server.js:79 | a successful attempt of the byte-array pattern has a non-empty capture group that ends before the closing brace, inside the text |
| ByteArray.MatchAtSound | server.js:79 | what the attempt at a position finds is a match of `new\s+byte\s*\[\s*\]\s*\{([0-9\s,-]+)\}` with that capture group |
| ByteArray.MatchAtComplete | server.js:79 | whenever the pattern matches at a position in any way, the attempt there finds exactly that match |
| ByteArray.NextMatch | server.js:111 | `exec` from `lastIndex` returns a match that starts at or after the cursor and is the pattern's match at that position |
| ByteArray.NextMatchIsLeftmost | server.js:111 | no byte-array literal starts between the cursor and the match `exec` returns, nor anywhere after the cursor when it returns none |
| ByteArray.ByteArrayRegex.Exec | server.js:111 | `exec` returns the leftmost literal from the cursor and moves the cursor past its closing brace, or back to 0 when there is none |
| ByteArray.ByteArrayRegex.constructor | server.js:79 | a fresh pattern object starts its search at position 0 |
| ByteArray.Candidates | server.js:111 | the literals of a search loop are inside the text, in increasing order and pairwise disjoint, each with a non-empty body |
| ByteArray.CandidatesMatch | server.js:111 | every literal the loop yields is a match of the pattern at its own start |
| JsText.TrimStart | server.js:113 | what is left is a suffix of the text, everything dropped is whitespace, and it does not start with whitespace |
| JsText.TrimEnd | server.js:113 | what is left is a prefix of the text, everything dropped is whitespace, and it does not end with whitespace |
| JsText.Trim | server.js:113 | the trimmed piece is no longer than the input and neither starts nor ends with whitespace |
| JsText.TrimSubstring | server.js:113 | what `trim` keeps is a substring of the piece, and everything it drops before and after that substring is whitespace |
| JsText.Split | server.js:113 | splitting on `,` gives one more piece than there are commas, no piece holds a comma, and joining the pieces with `,` gives the text back |
| JsText.SplitJoin | server.js:113 | splitting undoes joining when no piece holds the separator |
| JsText.DigitPrefix | server.js:113 | `parseInt` reads the longest prefix of digits of the radix and stops at the first character that is not one |
| JsText.ParseIntDecimal | server.js:113 | `parseInt` reads back every integer written in decimal, negative ones included |
| JsText.ToUint8 | server.js:113 | `Buffer.from(array)` stores NaN as byte 0 and every integer as its value modulo 256 |
| ByteArray.ByteValues | server.js:113 | a body gives one byte per comma-separated piece, malformed pieces included |
| ByteArray.EntryByte | server.js:113 | one element of a literal, as Java writes it and with any leading spacing, is read back as that element modulo 256 |
| ByteArray.ByteValuesOfFormat | server.js:113 | a body written as Java writes an array literal gives exactly the elements, each reduced modulo 256 (so -1 becomes 255) |
| Utf8.Step | server.js:114 | an ASCII byte decodes to itself in one step, and a non-ASCII lead byte never yields an ASCII character |
| Utf8.Decode | server.js:114 | UTF-8 decoding never produces more characters than there are bytes |
| Utf8.DecodeAscii | server.js:114 | bytes that are all ASCII decode to the characters with the same codes, one per byte |
| Utf8.AsciiCharsFromAsciiBytes | server.js:114 | every ASCII character of the decoded text comes from an ASCII byte of the input |
| Utf8.DecodeEncode | server.js:114 | decoding undoes UTF-8 encoding, for every text |
| ByteArray.FewEntriesNeverAccepted | server.js:113-115 | a literal with fewer than five comma-separated entries is never accepted |
| ByteArray.NonAsciiNeverAccepted | server.js:114-115 | a literal none of whose bytes is ASCII is never accepted |
| ByteArray.AsciiAcceptance | server.js:114-115 | when every byte is ASCII, a literal is accepted exactly when five consecutive bytes are codes of `[a-zA-Z0-9:/.]` characters |
| ByteArray.Recover | server.js:115-116 | every recovered finding is a byte-array finding whose text passes the acceptance test, and there are never more findings than decoded texts |
| ByteArray.RecoverAppend | server.js:111-119 | the findings of two consecutive lists of literals are those of the first followed by those of the second |
| ByteArray.FindingsStep | server.js:111-119 | with no further literal there are no further findings; otherwise the findings are those of the returned literal followed by those found past its end |
| ByteArray.Findings | server.js:111-119 | every byte-array finding of a text is tagged as such and passes the acceptance test |
| Annotation.Line | server.js:104 | an annotation line ends with the recovered text followed by the closing quote |
| Annotation.Render | server.js:97-119 | the annotation text is empty exactly when there are no findings |
| Annotation.RenderAppend | server.js:97-119 | the annotation text of two lists of findings is the text of the first followed by the text of the second: lines appear in finding order |
| Annotation.RenderOne | server.js:104 | a single finding contributes exactly its own line |
| Annotation.WarningBlockInjective | server.js:121-123 | the warning block determines the annotation lines it holds: two blocks are equal only when their lines are |
| Scanner.Findings | server.js:96-119 | the findings of a file are its Base64 findings and its byte-array findings, all of them |
| Scanner.FindingsOrder | server.js:96-119 | every Base64 finding comes before every byte-array finding |
| Scanner.AnnotateExtends | server.js:121-123 | appending the warning block only extends the text |
| Scanner.ClassifyContent | server.js:121-123 | the scanned text is a prefix of the final content, which is the scanned text alone when nothing was recovered and the scanned text followed by the warning block of all findings otherwise |
| Scanner.ClassifySuspect | server.js:121-126 | a file is suspect exactly when the keyword test matches its scanned text or something was recovered: testing the annotated text instead makes no difference |
| Scanner.Base64Lines | server.js:97-107 | the Base64 loop appends exactly the lines of the Base64 findings of the text, in match order, and leaves the cursor back at 0 |
| Scanner.ByteArrayLines | server.js:110-119 | the byte-array loop appends exactly the lines of the byte-array findings, in match order, and leaves the cursor back at 0 |
| Scanner.ScanFile | server.js:83-126 | scanning one file with the two shared pattern objects gives the content and flag the scan specification prescribes, and leaves both cursors at 0 for the next file |
| Report.PathLeReflexive | server.js:136 | every path may stay before itself |
| Report.PathLeTotal | server.js:136 | of any two paths, one may stay before the other |
| Report.PathLeAntisymmetric | server.js:136 | two paths each before the other are equal |
| Report.PathLeTransitive | server.js:136 | the path order is transitive |
| Report.LeTotal | server.js:136 | the comparator orders every pair of entries |
| Report.LeTransitive | server.js:136 | the comparator is transitive, so suspect-first-then-path is a consistent order |
| Report.LeAntisymmetric | server.js:136 | two entries each before the other agree on suspicion and path |
| Report.Insert | server.js:136 | inserting one entry adds exactly that entry |
| Report.InsertMembers | server.js:136 | the result of inserting holds only the new entry and the old ones |
| Report.InsertSorted | server.js:136 | inserting into an ordered list keeps it ordered |
| Report.Sort | server.js:136 | the sort is a permutation of the entries |
| Report.SortSorted | server.js:136 | the sort puts suspect files first and orders the paths within each group |
| Report.SortOfSorted | server.js:136 | the sort leaves an ordered list unchanged |
| Report.SortIdempotent | server.js:136 | sorting twice is sorting once |
| Report.SortedUnique | server.js:136 | two ordered lists of the same entries are equal when no two entries share a path |
| Report.SortIsDetermined | server.js:136 | when paths are distinct, any ordered permutation of the entries is the sort's result, so the order of the response does not depend on the sorting algorithm |
| Report.DistinctPathsPermutation | server.js:136 | rearranging entries keeps their paths distinct |
| Report.ReportShape | server.js:136-142 | the response holds `min(n, 2000)` entries: the first ones of the sorted entries, in order, and nothing that was not an entry |
| Report.ReportPrefersSuspects | server.js:136-142 | the cap drops non-suspect files first: if a suspect entry is left out, every entry of the response is suspect |
| Report.ReportIdempotent | server.js:136-142 | building the response from a response gives it back |
| Report.Entries | server.js:81-92 | there are never more entries than files |
| Report.EntriesSound | server.js:81-133 | every entry is the entry of a file that could be read |
| Report.EntriesComplete | server.js:81-133 | every file that could be read has its entry: only unreadable files are skipped |
| Report.Decompile | server.js:70-142 | the endpoint's loop over the files, with both pattern objects created once and shared, returns the sorted and capped entries of the readable files |

## Left out

- The HTTP layer is not modelled: the Express and multer setup, the upload, the JSON response and the listening socket are I/O.
- Running CFR with `child_process.exec`, and the handling of its exit status, is not modelled. It runs an external program.
- `getAllJavaFiles`, `fs.readFileSync`, `path.relative` and the cleanup of temporary files are I/O. They are not part of this model. The files reach `Report.Decompile` as a list of relative paths, each with its text or a read failure. A read failure skips the file.
- The `try { … } catch (err) { }` around each decoding is not modelled. On the texts the patterns match, neither decoding can throw: Base64 text is well-formed, and every piece of a byte-array body is a string.
- Node's leniency towards malformed Base64 is not modelled. `Base64.Decode` only accepts the well-formed text that a match always is.
- Report.PathLe: `localeCompare` is modelled as lexicographic order on characters, a proper prefix first. Locale-sensitive collation is not modelled. The proofs about the report only use that the order is total, antisymmetric and transitive.
- Report.Sort: the engine sorts the array in place with an algorithm of its own. The model specifies the order with a stable insertion sort over sequences. `Report.SortIsDetermined` shows that any ordered permutation is the same list when paths are distinct, as they are in one directory tree.
- Scanner.TruncateShape: lengths are counted in characters (code points), not UTF-16 code units. A file with characters outside the Basic Multilingual Plane may be cut at a different place than `String.prototype.length` and `substring` cut it.
- JsText.ParseInt: numbers are exact integers. The double rounding of `parseInt` for numerals beyond 2^53 is not modelled, and such a value is reduced modulo 256 exactly.
- In `Report.Decompile`, the response array is a sequence that the loop appends to, then sorts and cuts. Aliasing of the array object is not modelled.
