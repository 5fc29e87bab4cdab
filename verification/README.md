# Verified models of the algorithmic cores

A Dafny model of the self-contained algorithms of the repository, with proofs of what they promise. Each
core is written twice: as functions that say what is computed, and as imperative code that computes it the
way the C code does (linked nodes, arrays, cursors, counters), proved to agree.

| core | files | what is proved |
|---|---|---|
| uthash and the list sort of utlist | `UtHash.dfy`, `HashTable.dfy`, `HashRuns.dfy`, `MergeSort.dfy`, `ListSort.dfy`, `Bits.dfy` | heap nodes that sit in an application-order list and in a bucket chain at once; the HASH_FSCK invariant over every run, bucket expansion, the in-place stable merge sort |
| cJSON | `Json.dfy`, `JsonPrint.dfy`, `JsonBuffer.dfy`, `JsonMinify.dfy`, `JsonParse.dfy`, `JsonReader.dfy`, `JsonNumbers.dfy`, `JsonMeaning.dfy`, `JsonText.dfy`, `JsonGrammar.dfy`, `JsonAccepted.dfy`, `JsonErrors.dfy`, `JsonComments.dfy`, `JsonLayout.dfy`, `JsonWritten.dfy` | two renderers and two formats, the in-place minifier, the parser; round trips, equality of the renderers; the exact set of texts that are read, with their meaning defined apart from the parser, and where reading the others fails; what the minifier keeps of any text; the layout of the formatted print; minifying as a transformation that keeps the meaning |
| string search of utstring | `Kmp.dfy` | both strong failure tables, both searches, no occurrence skipped, a linear number of comparisons for tables and searches |
| thread pool | `ThreadPool.dfy`, `JobQueue.dfy`, `PoolQueue.dfy` | a transition system of one main thread and any number of workers: safety, custody of jobs, work that always gets done, a shutdown that always ends; its queue is the linked queue under every schedule |
| CRC-8 and framing | `Crc.dfy`, `Tables.dfy`, `Framing.dfy` | table against bitwise computation, error detection, a stream of frames under arbitrary short reads |
| Base64 | `Base64.dfy`, `Base64Letters.dfy` | exact lengths, buffer bounds, the round trip in both directions |
| XML fragments | `Xml.dfy`, `XmlParser.dfy` | termination over the clamped cursor, slices inside the buffer, recovery of every document of the grammar |

Conventions. Byte strings are `string` (characters below 256) in the JSON and XML models and `seq<bv8>` in
the CRC, framing and Base64 models. A C string is its bytes before the terminator; where a routine writes
into a buffer, the buffer is an array, and every write is inside it or the result says that it would not be. Numbers are unbounded except
where a width matters and is written out (the CRC register, bytes, headers). A disjoint `|` of shifted bit
groups in the UTF-8 code is written as a sum.

Places where the code does other than one might expect, each with an input and the exact condition:

- `Framing.SendInBounds`, `Framing.SendOverruns`: the size check of the sender counts the payload without header and checksum.
- `Framing.UnframeSafeLengths`: a header alone, when calloc gives a block for no bytes, leads to a copy of -1 bytes; every other message is accepted or rejected.
- `JsonMeaning.MinifyDefined`, `JsonMeaning.OpenLiteralParses`: the parser accepts a string that is not closed, the minifier runs past its end.
- `JsonMeaning.MinValue`, `JsonMeaning.MinifyPartly`, `JsonMeaning.MinifyJoinsNumbers`: minifying can join a number with what follows it.
- `JsonNumbers.GrammarExact`, `JsonNumbers.BareMinus`, `JsonNumbers.BareMark`, `JsonParse.ParseLeadingZero`: more texts are read as numbers than RFC 8259 has; `JsonAccepted.ReadsExactly` has all that is read beyond it.
- `Crc.PythonReverseInverted`: the Python reversal tests the wrong way round.
- `JsonComments.MarkMinified`: the minifier takes `/*/` for a whole comment.
- `Xml.BlankTagParses`: whitespace before the bracket of an opening tag puts the bracket into the text.
- `Xml.MatchesMeansEqual`, `Xml.PairParses`, `Xml.NamelessCloses`: tag names are compared up to the shorter length.
- `HashTable.Table.ValidMeansPasses`: what the integrity check of uthash does not look at.

## Model

| member | source | states |
|---|---|---|
| `Kmp.BorderStep` | common/uthash/utstring.h:172-193 | a border one longer is a border whose next character agrees: the step on which both tables are built |
| `Kmp.FailureLink` | common/uthash/utstring.h:174-177 | following a table entry after a mismatch skips no border that could still be extended |
| `Kmp.LongestBorderStep` | common/uthash/utstring.h:178-184 | once the candidate's next character agrees, it is the longest border of the longer prefix |
| `Kmp.CompressEntry` | common/uthash/utstring.h:180-192 | copying the entry of the border on equal characters gives the longest border that is followed by a different character |
| `Kmp.BuildTable` | common/uthash/utstring.h:162-198 | entry k < n is the longest proper border b of the first k characters with needle[b] != needle[k], or -1; entry n is the longest proper border of the needle; at most three comparisons per character |
| `Kmp.ScanFail` | common/uthash/utstring.h:256-259 | on a mismatch, shifting by the table drops no alignment that could be an occurrence |
| `Kmp.ScanAdvance` | common/uthash/utstring.h:260-262 | stepping both cursors keeps: no occurrence starts before the alignment in hand |
| `Kmp.FindWith` | common/uthash/utstring.h:242-271 | with the left table: the leftmost occurrence, or -1 exactly when there is none, in at most twice the haystack length of character comparisons; the early-exit guard loses nothing |
| `Kmp.Find` | common/uthash/utstring.h:309-351 | the leftmost occurrence at or after the start position, which counts from the end when negative; -1 exactly when there is none there; an empty needle is never found; admitted are exactly the starts from which nothing outside the string is read; table and search together take a linear number of comparisons |
| `Kmp.BorderMirror` | common/uthash/utstring.h:202-238 | a border read from the right is a border of the reversed string |
| `Kmp.RightTableReading` | common/uthash/utstring.h:202-238 | entry k of the right table is the smallest b whose suffix is a border from the right and whose preceding character differs, or n when there is none |
| `Kmp.BuildTableR` | common/uthash/utstring.h:202-238 | the right table is the mirror image of the left table of the reversed needle, with at most three comparisons per character |
| `Kmp.OccurrenceMirror` | common/uthash/utstring.h:275-305 | occurrences correspond to occurrences in the reversed strings |
| `Kmp.ScanFailR` | common/uthash/utstring.h:290-293 | on a mismatch, shifting by the right table drops no alignment that could be an occurrence |
| `Kmp.FindWithR` | common/uthash/utstring.h:275-305 | with the right table: the rightmost occurrence, or -1 exactly when there is none, in at most twice the haystack length of comparisons; the guard j >= i drops no alignment that fits |
| `Kmp.FindR` | common/uthash/utstring.h:355-393 | the rightmost occurrence lying wholly in positions 0..start, or -1 exactly when there is none; a start at the end searches the terminator too; admitted are exactly the starts from which nothing outside the string is read; linear number of comparisons |
| `MergeSort.MergeSorted` | common/uthash/uthash.h:988-1028 | merging two sorted runs gives a sorted run |
| `MergeSort.MergeStable` | common/uthash/uthash.h:1001-1010 | a merge keeps, for every element, the order of its equals: those of the left run first, then those of the right |
| `MergeSort.SortCorrect` | common/uthash/uthash.h:961-1043 | the bottom-up passes give a sorted, stable permutation, for every comparison that is a total preorder on the elements |
| `MergeSort.StableSortUnique` | common/uthash/uthash.h:961-1043 | only one sequence is a sorted and stable rearrangement of a given one, so SortCorrect fixes the result |
| `ListSort.Hook` | common/uthash/uthash.h:1017-1027 | hooking the next node behind the tail, first node included, keeps the output list and the two unfinished runs linked |
| `ListSort.TakeRun` | common/uthash/uthash.h:977-986 | walks over at most insize nodes and returns how many there were and the node after them |
| `ListSort.MergeRuns` | common/uthash/uthash.h:988-1028 | the pointer loop appends exactly the merge of the two runs to the output list |
| `ListSort.MergePass` | common/uthash/uthash.h:971-1034 | one pass relinks the list to the merge of its adjacent runs, with prev links, head and tail right, and counts at most one merge exactly when the list is sorted after it |
| `ListSort.CloseRing` | common/uthash/utlist.h:225-226 | the tail of utlist: head->prev is the last node, whose next is null |
| `ListSort.DlSort` | common/uthash/utlist.h:175-233 | DL_SORT2: the list becomes the sorted stable permutation of itself, with head->prev the last node |
| `UtHash.PushFront` | common/uthash/uthash.h:840-859 | links an element at the front of a bucket chain |
| `UtHash.Unchain` | common/uthash/uthash.h:862-875 | unlinks an element from anywhere in a bucket chain |
| `UtHash.AppendList` | common/uthash/uthash.h:278-283 | links an element at the end of the application-order list |
| `UtHash.Unlist` | common/uthash/uthash.h:461-471 | unlinks an element from anywhere in the application-order list and moves head and tail when it was there |
| `UtHash.SpreadAdd` | common/uthash/uthash.h:430-433 | adding an element to the chain its hash value selects keeps every element in exactly its own chain, once |
| `UtHash.SpreadRemove` | common/uthash/uthash.h:472-473 | removing an element from its chain and from the list keeps the same |
| `UtHash.SpreadCount` | common/uthash/uthash.h:544-547 | the chain lengths add up to the number of elements |
| `UtHash.MoveInto` | common/uthash/uthash.h:928-938 | one element is pushed on its new chain; count, expand_mult and the number of elements past the ideal length follow the chain |
| `UtHash.MoveOne` | common/uthash/uthash.h:926-939 | one round of the rehash: the element leaves the unfinished old chain, all later elements of the old chains stay reachable, and the successor read beforehand is the next one |
| `UtHash.Redistribute` | common/uthash/uthash.h:917-941 | the new buckets hold the same elements, each in the bucket of its hash value over the doubled count; the ideal length is the exact ceiling; nonideal_items is the sum of the lengths above it; expand_mult matches the final counts |
| `UtHash.IdealChainMaxlen` | common/uthash/uthash.h:919-921 | the shift-and-mask expression is the exact ceiling of items over the doubled bucket count |
| `UtHash.ExpansionTargets` | common/uthash/uthash.h:923-941 | an element of bucket b goes to bucket b or to bucket b + num_buckets |
| `Bits.AndMask` | common/uthash/uthash.h:430-433 | masking with a power of two less one is the remainder, so HASH_TO_BKT always gives a bucket index |
| `Bits.CeilingByShift` | common/uthash/uthash.h:897-905 | (n >> lb) + (n & (b-1) ? 1 : 0) is the ceiling of n over 2^lb |
| `HashTable.Table.MakeTable` | common/uthash/uthash.h:212-241 | a new table has 32 = 2^5 empty buckets |
| `HashTable.Table.ExpandBuckets` | common/uthash/uthash.h:906-954 | the element set stays; each element of bucket b is in b or b + num_buckets; num_buckets doubles and stays 2^log2_num_buckets; ideal length, nonideal_items and expand_mult are exact; ineff_expands counts expansions in a row that left more than half the elements past it |
| `HashTable.Table.AddToBkt` | common/uthash/uthash.h:840-859 | the element joins its chain and the table expands past the threshold unless expansion is off, with the bucket invariant kept |
| `HashTable.Table.Add` | common/uthash/uthash.h:396-415 | the element is last in application order and in the chain of its hash value; the whole HASH_FSCK invariant holds again, first element and bucket expansion included |
| `HashTable.Table.DeleteFromList` | common/uthash/uthash.h:461-471 | the list without the element, head and tail right |
| `HashTable.Table.DeleteFromBucket` | common/uthash/uthash.h:472-473 | the chains without the element, every other one untouched |
| `HashTable.Table.Delete` | common/uthash/uthash.h:450-477 | the element is gone, the others keep their order, and the invariant holds again, last element included |
| `HashTable.Table.Find` | common/uthash/uthash.h:156-173 | an element with the key when the table has one, null exactly when it has none, for every hash function |
| `HashTable.Table.FindInBkt` | common/uthash/uthash.h:818-837 | the walk of one chain that compares hash values first |
| `HashTable.Table.Iterate` | common/uthash/uthash.h:1131-1135 | visits every element once, in application order |
| `HashTable.Table.Count` | common/uthash/uthash.h:1137-1138 | the number of elements, zero for a null head |
| `HashTable.Table.Fsck` | common/uthash/uthash.h:506-553 | on any table whose next pointers lead to their ends, it passes exactly when the backward pointers, the bucket counts and the item count are right |
| `HashTable.Table.ValidPasses` | common/uthash/uthash.h:506-553 | every sound table passes |
| `HashTable.Table.ValidMeansPasses` | common/uthash/uthash.h:506-553 | a table that passes is sound exactly when also the tail, the power-of-two bucket count, the noexpand flag, the stored hash values and the placement of the elements are right, none of which is checked |
| `HashTable.Table.Sort` | common/uthash/uthash.h:961-1043 | application order becomes the sorted stable permutation of itself with prev, next, head and tail right; every bucket chain, so every find, is unchanged |
| `HashRuns.RepresentsAdd` | common/uthash/uthash.h:396-415 | adding a fresh key keeps the table the same map as the abstract one |
| `HashRuns.RepresentsRemove` | common/uthash/uthash.h:450-477 | so does removing an element |
| `HashRuns.RepresentsSort` | common/uthash/uthash.h:961-1043 | so does any rearrangement |
| `HashRuns.Perform` | common/uthash/uthash.h:396-477 | one operation acts on the abstract map and on the order as specified, and keeps the invariant |
| `HashRuns.Run` | common/uthash/uthash.h:396-477 | over every run of adds, deletes, finds and sorts and any hash function: the finds answer as a plain map, the iteration visits the elements in the specified order, and the invariant holds at the end |
| `JsonMinify.Minify` | common/cJSON.c:735-750 | in place, the buffer ends up holding the minified text and is untouched beyond the old terminator; the loop steps past the terminator exactly when there is no minified text |
| `JsonMinify.SkipRound` | common/cJSON.c:739-745 | a round that skips a blank or a comment moves only the read cursor, which stays at or after the write cursor; the minified text is the same |
| `JsonMinify.CopyRound` | common/cJSON.c:746-747 | a round that copies a literal or another byte leaves the write cursor at or before the read cursor, and what is written so far, followed by the minified rest, is the minified text |
| `JsonMinify.CopyLiteral` | common/cJSON.c:746 | a closed string literal is copied byte for byte, escaped quotes included; one that is not closed runs past the terminator |
| `JsonMinify.EscapedLiteral` | common/cJSON.c:284-305 | an escaped string ends, for the minifier, exactly at its closing quote |
| `JsonMinify.ShrinksRender` | common/cJSON.c:434-658 | the formatted text of any tree at any depth minifies to its unformatted text, whatever follows it |
| `JsonMinify.MinifyPrint` | common/cJSON.c:342-343 | cJSON_Minify of cJSON_Print is cJSON_PrintUnformatted, for every tree |
| `JsonParse.ParseDecimal` | common/cJSON.c:96-115 | a decimal integer parses to itself and stops before any text that cannot extend a number |
| `JsonParse.ParseScientific` | common/cJSON.c:96-115 | sign, whole digits, fraction digits and exponent read as the digits without the point, scaled by the exponent less the number of fraction digits |
| `JsonParse.ParseLeadingZero` | common/cJSON.c:101-102 | one zero before other digits is read past |
| `JsonNumbers.Reads` | common/cJSON.c:96-115 | a number text before y reads as its value up to y exactly when y does not continue it; which bytes continue it depends on where it ends: after the minus, a lone zero, whole digits, fraction digits, the exponent mark, its sign, or exponent digits |
| `JsonNumbers.NumberSplit` | common/cJSON.c:96-115 | whatever is read as a number consists of these parts, is worth their value, and its rest does not continue it |
| `JsonNumbers.NumberExact` | common/cJSON.c:96-115 | the text a number was read from reads the same before y exactly when y does not continue it |
| `JsonNumbers.GrammarExact` | common/cJSON.c:96-115 | what is read is a number of section 6 of RFC 8259 exactly when a digit follows the minus, no digit follows a leading zero, and an exponent mark is followed by a digit at the end |
| `JsonNumbers.BareMinus` | common/cJSON.c:100-109 | a lone minus is read as zero, which the grammar does not have |
| `JsonNumbers.BareMark` | common/cJSON.c:104-107 | an exponent mark without digits is read, which the grammar does not have |
| `JsonParse.DecodeEscaped` | common/cJSON.c:192-249 | decoding the escaped form of any NUL-free byte string gives the string back and stops after the closing quote |
| `JsonParse.Utf8RoundTrip` | common/cJSON.c:229-237 | the bytes laid down for a code point are its UTF-8 form by the table of section 3 of RFC 3629 |
| `JsonParse.DecodeEscapeUnicode` | common/cJSON.c:216-238 | a code point escaped as section 7 of RFC 8259 says, as one escape or as a surrogate pair, decodes to its UTF-8 bytes |
| `JsonParse.ParseRender` | common/cJSON.c:357-547 | parsing the rendering of a tree of 32-bit integers and NUL-free strings, in either format and at any depth, gives the tree and stops exactly at its end |
| `JsonParse.ParsePrint` | common/cJSON.c:323-343 | the same for whole texts, with and without the check for trailing text |
| `JsonReader.SkipBlank` | common/cJSON.c:320 | moves over the bytes up to 32 |
| `JsonReader.ReadNumber` | common/cJSON.c:96-115 | the number loops compute ParseNumber: sign, a lone leading zero, digits, fraction only when a digit follows, exponent |
| `JsonReader.UnitsUnicode` | common/cJSON.c:197-199 | an escape counts in the first scan for at least the bytes it decodes to |
| `JsonReader.PutUtf8` | common/cJSON.c:229-237 | the fall-through switch writes exactly the bytes of the code point |
| `JsonReader.ReadUnicode` | common/cJSON.c:216-238 | one \u escape: value, surrogate pairing, and how far the cursor moves, lone and mismatched surrogates included; it stops exactly where four hex digits are missing |
| `JsonReader.ReadString` | common/cJSON.c:192-249 | the two scans compute ParseString on every text, and the length counted by the first is room enough for the second; it stops exactly at an escape outside the grammar |
| `JsonReader.ReadItems` | common/cJSON.c:415-430 | the loop of parse_array computes ParseItems, error position included |
| `JsonReader.ReadMembers` | common/cJSON.c:523-546 | the loop of parse_object computes ParseMembers, error position included |
| `JsonReader.ReadValue` | common/cJSON.c:357-369 | parse_value computes ParseValue, with the order of its tests |
| `JsonReader.ParseWithOpts` | common/cJSON.c:323-337 | the whole parse: tree, end of text and error position are those of Parse, with and without the check for trailing text |
| `JsonMeaning.DecodeLocal` | common/cJSON.c:203-245 | a closed literal decodes the same whatever follows it |
| `JsonMeaning.NumberLocal` | common/cJSON.c:96-115 | a number reads the same whatever terminated text follows it |
| `JsonMeaning.MinValue` | common/cJSON.c:357-547 | for any text, parsing a value commutes with minifying exactly when the value is no number or the minified rest does not continue it |
| `JsonMeaning.ValueDefined` | common/cJSON.c:735-750 | after a parsed value that is no open literal, the minifier stays inside the text exactly when it does so on the rest |
| `JsonMeaning.MinifyDefined` | common/cJSON.c:735-750 | on a text that parses as a whole, the minifier stays inside the text exactly when the text is not one string literal without closing quote |
| `JsonMeaning.MinifyKeepsMeaning` | common/cJSON.c:735-750 | a text that parses as a whole and is not one open literal is minified inside its bounds and then parses to the same tree |
| `JsonMeaning.OpenLiteralParses` | common/cJSON.c:203-245 | an open literal parses as a whole, and the minifier runs past its end |
| `JsonMeaning.MinifyPartly` | common/cJSON.c:739-747 | without the check for trailing text, the minified text parses to the same tree followed by the minified rest exactly when that rest does not continue a number |
| `JsonMeaning.MinifyJoinsNumbers` | common/cJSON.c:739-747 | a text on which it does not: the blank that ended a number is dropped |
| `JsonGrammar.DecodePieces` | common/cJSON.c:203-245 | every string of section 7 of RFC 8259, as any sequence of plain characters and escapes, decodes to the bytes it stands for by the hex digits, short escapes and UTF-8 table of `JsonText`, lone and mismatched surrogates included; so does one that is not closed |
| `JsonGrammar.NumberTexts` | common/cJSON.c:96-115 | the strict number texts are exactly the numbers of section 6 of RFC 8259 written as one pattern |
| `JsonGrammar.NumberReads` | common/cJSON.c:96-115 | a number reads as the sum of the place values of its digits, scaled by its exponent, before anything that does not continue it |
| `JsonGrammar.ParseText` | common/cJSON.c:357-547 | every text of the RFC 8259 grammar and of the wider one of cJSON, with any blanks, escapes and numbers, parses to the tree it stands for and stops exactly at its end |
| `JsonGrammar.ParseGrammar` | common/cJSON.c:323-337 | the same for whole texts, with and without the check for trailing text |
| `JsonGrammar.MinifyGrammar` | common/cJSON.c:735-750 | every text of the grammar is minified inside its bounds and then parses to the same tree |
| `JsonAccepted.ReadsExactly` | common/cJSON.c:357-547 | a value and a rest are read from a text exactly when the text is one of the wide grammar before that rest, which does not continue it: RFC 8259 widened by control characters, any escape letter, one leading zero, bare minus and exponent mark, and a last string that is not closed |
| `JsonAccepted.AcceptsExactly` | common/cJSON.c:323-337 | a whole text is accepted exactly when it is one of the wide grammar between blanks, and its tree is the one that text stands for |
| `JsonErrors.FailsExactly` | common/cJSON.c:357-547 | a value is not read, with the error pointer at a place, exactly where a text of the wide grammar is complete up to that place and neither a value nor the mark that is due stands there |
| `JsonErrors.ParseFailsExactly` | common/cJSON.c:323-337 | a whole text fails there, or behind its value where something else follows |
| `JsonComments.PartsMinified` | common/cJSON.c:735-750 | a text cut into blanks, comments, literals and other characters minifies to its literals and other characters, wherever the comments stand |
| `JsonComments.MarkMinified` | common/cJSON.c:745 | the slash, star, slash that opens a comment closes it too |
| `JsonComments.MinifiedExactly` | common/cJSON.c:735-750 | the minified text of s is t exactly when s can be cut that way and t is what is kept; so the minifier stays inside exactly such texts |
| `JsonLayout.RenderLayout` | common/cJSON.c:434-658 | the formatted text of any tree at any depth is the layout of its unformatted text: line breaks, one tab for each open array or object, a tab after each colon, a space after each comma of an array |
| `JsonLayout.PrintLayout` | common/cJSON.c:342-343 | cJSON_Print writes the layout of what cJSON_PrintUnformatted writes |
| `JsonWritten.WrittenCharIs` | common/cJSON.c:284-305 | how each byte of a string is written: seven short escapes, lower-case \u00XX for the other control characters, the byte itself otherwise |
| `JsonWritten.PrintStands` | common/cJSON.c:342-343 | cJSON_PrintUnformatted writes a text of RFC 8259 without blanks that stands for the tree |
| `JsonPrint.PrintString` | common/cJSON.c:252-307 | the escaping loop writes the quoted string into a block of the length computed beforehand |
| `JsonPrint.PrintNumber` | common/cJSON.c:147-162 | a 32-bit integer fits the reserved block |
| `JsonPrint.PrintArray` | common/cJSON.c:469-509 | the text of the array, composed inside a block of the computed length |
| `JsonPrint.PrintObject` | common/cJSON.c:608-656 | the text of the object, composed inside a block of the computed length |
| `JsonPrint.Print` | common/cJSON.c:342-343 | cJSON_Print and cJSON_PrintUnformatted give the rendering |
| `Bits.SmearStep` | common/cJSON.c:117 | x or x >> w doubles how far down every bit has been copied |
| `JsonBuffer.Pow2Gt` | common/cJSON.c:117 | pow2gt(x) >= x always, and it is the least such power of two up to 2^32 |
| `JsonBuffer.PrintBuffer.Ensure` | common/cJSON.c:121-136 | room for the bytes asked for, with everything already written kept across a reallocation |
| `JsonBuffer.PrintBuffer.Update` | common/cJSON.c:138-144 | the offset moves to the end of the child's text |
| `JsonBuffer.PrintBuffer.PrintArray` | common/cJSON.c:453-467 | the array's rendering follows what was in the buffer |
| `JsonBuffer.PrintBuffer.PrintObject` | common/cJSON.c:570-606 | the object's rendering follows what was in the buffer |
| `JsonBuffer.PrintBuffer.PrintValue` | common/cJSON.c:376-388 | the same for every tree, with the offset left inside the text written |
| `JsonBuffer.RenderCString` | common/cJSON.c:138-144 | a rendering holds no terminator, so strlen finds its end |
| `JsonBuffer.PrintBuffered` | common/cJSON.c:345-353 | the buffered text equals the unbuffered one for every tree, both formats and every initial size |
| `JobQueue.Queue.Add` | proxy_server/threadpool/threadpool.c:152-179 | the linked queue gains the node at its tail |
| `JobQueue.Queue.RemoveFirst` | proxy_server/threadpool/threadpool.c:20-42 | takes the head node, or nothing exactly when the queue is empty, with the links of the rest right |
| `JobQueue.Queue.Empty` | proxy_server/threadpool/threadpool.c:201-221 | frees every queued node exactly once, front to back |
| `ThreadPool.NextInv` | proxy_server/threadpool/threadpool.c:44-87 | every step of every thread keeps mutex ownership, flag, job order, job custody, the semaphore equation and join progress |
| `ThreadPool.ReachableInv` | proxy_server/threadpool/threadpool.c:101-149 | they hold in every reachable state, for any number of workers |
| `ThreadPool.WokenFindsJob` | proxy_server/threadpool/threadpool.c:62-64 | a worker in the critical section always finds a job, and takes the oldest, before and during shutdown |
| `ThreadPool.QueueMatchesSemaphore` | proxy_server/threadpool/threadpool.c:152-198 | before shutdown, with the mutex free, the queue length is the semaphore value plus the workers past sem_wait without a job |
| `ThreadPool.FirstInFirstOut` | proxy_server/threadpool/threadpool.c:20-42 | jobs are dequeued in the order they were added; the final sweep frees the ones that follow |
| `ThreadPool.EachJobOnce` | proxy_server/threadpool/threadpool.c:62-77 | every added job is in exactly one place: queued, held by one worker, returned or freed; so none runs twice |
| `ThreadPool.NoLostWakeup` | proxy_server/threadpool/threadpool.c:171-176 | with all workers asleep on a zero semaphore and no add in progress, the queue is empty |
| `ThreadPool.NobodyStuck` | proxy_server/threadpool/threadpool.c:226-232 | once destroy has posted, the semaphore covers every worker in sem_wait |
| `ThreadPool.WorkerCount` | proxy_server/threadpool/threadpool.c:101-149 | every run has as many workers as asked for, and one at least |
| `ThreadPool.AliveUntilDestroy` | proxy_server/threadpool/threadpool.c:47-79 | until the flag is cleared every worker stays in its loop |
| `ThreadPool.AddCompletes` | proxy_server/threadpool/threadpool.c:187-198 | a call to add work goes through when the mutex is free, and leaves one more job at the end of the queue and one more post |
| `ThreadPool.AddNotStuck` | proxy_server/threadpool/threadpool.c:187-198 | inside it the main thread waits for nothing but the worker that owns the mutex, which can move |
| `ThreadPool.QuietMeansDone` | proxy_server/threadpool/threadpool.c:44-87 | where no worker can move while the main thread is between calls, the queue is empty and exactly the added jobs have returned |
| `ThreadPool.WorkEnds` | proxy_server/threadpool/threadpool.c:44-87 | every run of the workers alone is bounded, and where it stops every added job has returned |
| `ThreadPool.WorkCanFinish` | proxy_server/threadpool/threadpool.c:44-87 | from every state between two calls the workers can reach such a state |
| `ThreadPool.ShutdownProgress` | proxy_server/threadpool/threadpool.c:223-246 | until destroy has finished, some thread can move |
| `ThreadPool.ShutdownBounded` | proxy_server/threadpool/threadpool.c:223-246 | after the flag is cleared no run has more steps than a fixed measure of the state |
| `ThreadPool.FinishedAccounting` | proxy_server/threadpool/threadpool.c:234-241 | when destroy returns all workers have exited, exactly the dequeued jobs have returned, and the sweep has freed exactly the rest |
| `PoolQueue.TakeJob` | proxy_server/threadpool/threadpool.c:20-42 | the node a worker removes from the linked queue holds the job its step takes, and the linked queue keeps the jobs of the state |
| `PoolQueue.InsertJob` | proxy_server/threadpool/threadpool.c:152-179 | the node inserted for the newest job makes the linked queue that of the next state |
| `PoolQueue.SweepSteps` | proxy_server/threadpool/threadpool.c:201-221 | the single steps of the final sweep come to freeing the whole queue, in order |
| `PoolQueue.Execute` | proxy_server/threadpool/threadpool.c:44-87 | under every schedule of the threads, the jobs that the linked queue hands out and frees are those taken and freed in the state reached; when destroy has finished they are all the jobs, in order |
| `Crc.HoldsStep` | common/crc8.c:14-18 | one round of the register loop is one polynomial step on its high byte |
| `Crc.HoldsRange` | common/crc8.c:10-20 | after each byte the register is below 2^16 with a zero low byte |
| `Crc.Crc8` | common/crc8.c:7-21 | the register loops compute the CRC of the message |
| `Crc.TableIsByteCrc` | test/ss/client/crc8.py:7-35 | each of the 256 table entries is eight polynomial steps of its index |
| `Crc.PythonCrc8` | test/ss/client/crc8.py:37-47 | the table-driven checksum equals the bitwise one, for every message |
| `Crc.CrcXor` | common/crc8.c:7-21 | the checksum is linear over exclusive or |
| `Crc.ByteCrcInjective` | common/crc8.c:14-18 | eight steps send no register but zero to zero |
| `Crc.CheckedIsClean` | common/crc8.c:24-40 | a message with one more byte checks to zero exactly when that byte is the checksum |
| `Crc.CrcData` | common/crc8.c:29-40 | from a given position on, the buffer receives the message and its checksum, nothing else |
| `Crc.ReverseCrcData` | common/crc8.c:42-51 | success exactly on non-empty messages that end in their own checksum; the payload is then copied, otherwise the buffer is untouched; without a buffer the answer is -1; an empty message with a buffer passes the check and leads to a copy of -1 bytes |
| `Crc.CrcParity` | common/crc8.c:7-21 | the parity of the checksum is the parity of the message |
| `Crc.AlteredChecksum` | common/crc8.c:24-27 | an altered message checks to the checksum of the alteration |
| `Crc.OddFlipsDetected` | common/crc8.c:42-51 | any odd number of bit flips, at any length, is rejected |
| `Crc.BurstDetected` | common/crc8.c:42-51 | any non-zero alteration within eight consecutive bits, at any length and offset, is rejected |
| `Crc.PythonReverse` | test/ss/client/crc8.py:56-58 | the reversal as written: all but the last byte when the check fails, nothing otherwise |
| `Crc.PythonReverseInverted` | test/ss/client/crc8.py:56-58 | the Python reversal is inverted: it returns the payload exactly when the last byte is not the checksum, and nothing on intact data |
| `Framing.ConvertHexToInt` | proxy_server/threadpool/aidsock.c:132-147 | two header bytes read as 256 times the first plus the second |
| `Framing.ConvertIntToHex` | proxy_server/threadpool/aidsock.c:149-164 | two bytes b, c with 256 b + c equal to the value, for every value up to 0xffff; refusal above; nothing else written |
| `Framing.HeaderInverse` | proxy_server/threadpool/aidsock.c:132-164 | reading a header gives back the length it was made from |
| `Framing.SendFrame` | proxy_server/threadpool/aidsock.c:743-759 | with the one buffer of the source: header, payload and checksum are sent, or nothing above the buffer size, or they would be written past its end |
| `Framing.FrameBytes` | proxy_server/threadpool/aidsock.c:750-759 | a frame is two bytes that give the length of payload and checksum, the payload, and its checksum |
| `Framing.SendInBounds` | proxy_server/threadpool/aidsock.c:743-759 | every write stays inside the buffer exactly for payloads over 4096 bytes, which are refused, and up to 4093 bytes |
| `Framing.SendOverruns` | proxy_server/threadpool/aidsock.c:743-759 | a payload of 4094 bytes passes the size check and is written one byte too far |
| `Framing.ReadN` | proxy_server/threadpool/aidsock.c:67-103 | exactly the next bytes of the stream, in order, across short reads and interruptions; fewer only at the end of the stream or when reading would block |
| `Framing.RecvPeek` | proxy_server/threadpool/aidsock.c:45-60 | peeks without consuming; it succeeds exactly when fewer than ten interruptions come first and then no error |
| `Framing.ReadNormalSock` | proxy_server/threadpool/aidsock.c:166-188 | for any events: -1 and an untouched stream when the peek fails or the length is zero, 0 at the end of the stream, and otherwise exactly what the read loop delivers of one frame |
| `Framing.Unframe` | proxy_server/threadpool/aidsock.c:431-444 | the header is dropped and the checksum verified, for every length of message, with and without the block asked of calloc; on a wrapped length there is no block and the message is rejected |
| `Framing.UnframeAccepts` | proxy_server/threadpool/aidsock.c:431-444 | a message is accepted exactly when its block is granted and its body ends in its own checksum; the payload is the body without it |
| `Framing.UnframeSafeLengths` | proxy_server/threadpool/aidsock.c:436-444 | every message is accepted or rejected exactly unless it is a header alone and calloc gives a block for no bytes; then -1 bytes are copied |
| `Framing.FirstFrame` | proxy_server/threadpool/aidsock.c:166-188 | the bytes of several frames start with the first one, whose header gives its length |
| `Framing.Receive` | proxy_server/threadpool/aidsock.c:166-188 | any number of frames, split in any way into non-empty reads with any number of interruptions, come out as exactly the payloads, in order, up to the first peek that fails |
| `Framing.CalmServes` | proxy_server/threadpool/aidsock.c:45-60 | no peek fails as long as ten interruptions never come in a row, so everything arrives |
| `Base64.Basis64Inverse` | common/base64.c:90-172 | the decoding table inverts the alphabet |
| `Base64Letters.BasisLiteral` | common/base64.c:171-172 | the encoding table is the alphabet of section 4 of RFC 4648, letter by letter |
| `Base64Letters.GroupNumber` | common/base64.c:179-191 | three bytes, as one number of 24 bits, are written as its four digits to the base 64 |
| `Base64Letters.LastGroupLetters` | common/base64.c:192-205 | a last group of one or two bytes is written as if zero bytes completed it |
| `Base64.GroupInverse` | common/base64.c:142-191 | the four sextets of a group give its three bytes back |
| `Base64.DigitsLength` | common/base64.c:174-177 | Base64encode_len is exactly the encoded length with its terminator |
| `Base64.RoundTrip` | common/base64.c:126-209 | decoding the encoding of any byte string gives it back, whatever lies beyond the terminator |
| `Base64.EncodedDecoded` | common/base64.c:126-209 | encoding what was decoded gives the text back exactly for canonical texts: whole groups, at most two characters of padding, all other characters of the alphabet, and no set bit that carries no byte |
| `Base64.Base64Encode` | common/base64.c:179-209 | writes the encoding and a terminator, returns its exact length, and leaves the rest of the buffer alone |
| `Base64.Base64DecodeLen` | common/base64.c:111-124 | the length function of the digits before the first byte outside the alphabet |
| `Base64.DecodeLenSuffices` | common/base64.c:111-124 | Base64decode_len is enough for the decoded bytes and the terminator |
| `Base64.Base64Decode` | common/base64.c:126-169 | writes the decoded bytes and a terminator within Base64decode_len and returns their exact number, for any input |
| `Xml.ParseText` | proxy_server/xml/xml.c:526-618 | every document of the grammar, with attributes or any other text in its tags, any whitespace between them and anything after it, parses to its tree, and the cursor ends right behind it |
| `Xml.ParseDocumentText` | proxy_server/xml/xml.c:651-684 | the same from xml_parse_document |
| `Xml.ParsedWellFormed` | proxy_server/xml/xml.c:350-505 | whatever the buffer, a returned tree has names without '>', text that is trimmed, not empty and without '<', and never both text and children |
| `Xml.ContentHolds` | proxy_server/xml/xml.c:475-497 | the text is trimmed before the trimming loop runs |
| `Xml.MatchesMeansPrefix` | proxy_server/xml/xml.c:124-143 | names compare equal exactly when one is a prefix of the other |
| `Xml.MatchesMeansEqual` | proxy_server/xml/xml.c:124-143 | so the comparison decides equality exactly when neither name is a proper prefix of the other |
| `Xml.PairParses` | proxy_server/xml/xml.c:526-618 | an element with any body is accepted exactly when one of its two tag texts, attributes included, is a prefix of the other; its name is the whole text of the opening tag |
| `Xml.BlankTagParses` | proxy_server/xml/xml.c:350-382 | whitespace in front of the bracket of an opening tag: the bracket becomes the start of the text, and an element with nodes is rejected |
| `Xml.NamelessCloses` | proxy_server/xml/xml.c:601-606 | a closing tag without a name closes every element |
| `Xml.PrefixCloses` | proxy_server/xml/xml.c:601-606 | a concrete pair of different tags that is accepted |
| `XmlParser.StringEquals` | proxy_server/xml/xml.c:124-143 | the comparison loop over two slices |
| `XmlParser.Parser.Look` | proxy_server/xml/xml.c:261-277 | the n-th byte from the cursor that is not whitespace, or zero |
| `XmlParser.Parser.Advance` | proxy_server/xml/xml.c:287-318 | the cursor moves, and stays on the last byte at the end |
| `XmlParser.Parser.SkipWhitespace` | proxy_server/xml/xml.c:327-337 | the cursor moves over whitespace but never past the last byte |
| `XmlParser.Parser.ScanTo` | proxy_server/xml/xml.c:357-376 | the scanning loop: how many bytes it consumes, or that it finds nothing |
| `XmlParser.Parser.ParseTagEnd` | proxy_server/xml/xml.c:350-382 | the name is a slice inside the buffer with the bytes before the closing bracket |
| `XmlParser.Parser.ParseTagOpen` | proxy_server/xml/xml.c:395-410 | an opening tag |
| `XmlParser.Parser.ParseTagClose` | proxy_server/xml/xml.c:423-446 | a closing tag |
| `XmlParser.Parser.ParseContent` | proxy_server/xml/xml.c:463-505 | the text, a slice inside the buffer |
| `XmlParser.Parser.ParseNode` | proxy_server/xml/xml.c:526-642 | terminates on every buffer, because each returned node moves the cursor on; every slice is inside the buffer; the tree and the cursor are those of the specification |
| `XmlParser.Parser.ParseChildren` | proxy_server/xml/xml.c:569-589 | the loop that grows the child array |
| `XmlParser.ParseDocument` | proxy_server/xml/xml.c:651-684 | no document for an empty buffer; otherwise the root node |

## Left out

- JsonPrint.PrintNumber: numbers that are not 32-bit integers are not rendered, because their text is floating-point formatting; parsed numbers are exact decimals, without rounding to double.
- JsonReader.ReadString: at an escape outside the grammar of section 7 of RFC 8259 (a backslash at the end of the text, or `\u` without four hex digits) the model stops; what the source does after it is not modelled.
- JsonMinify.Minify: where the loop steps past the terminator (an unclosed comment or literal) the model stops; what the source reads and writes there is not modelled.
- JsonReader.ParseWithOpts: the tree is a value, so the next and prev pointers and the partly filled nodes of a failed parse are not modelled.
- JsonBuffer.PrintBuffered: a prebuffer of zero is excluded, because what malloc(0) returns is not fixed.
- Framing.SendFrame: the write loop behind it is not modelled.
- Framing.ReadNormalSock: the peek sees the whole header when the stream holds it; a short peek is not modelled.
- Framing.Unframe: the model stops at a copy of -1 bytes; its effects are not modelled. Whether calloc gives a block is a parameter.
- Framing.Receive: no EAGAIN, no error and no failed allocation while a frame is read; what readn does then is in Framing.ReadN.
- Kmp.Find: starts from which the search would read before the string are excluded.
- Kmp.FindR: starts from which the search would read past the terminator are excluded.
- HashTable.Table.Fsck: tables whose next pointers run in circles are excluded, because the check then does not end.
- uthash: HASH_SELECT, HASH_CLEAR, the Bloom filter, in-order adds and replaces, recovery from failed allocation, hash functions themselves (the hash is an arbitrary function), the wrap-around of bucket counts.
- utlist: the sorts of singly linked and circular lists, which run the same merge.
- Thread pool: memory is sequentially consistent, jobs return, the main thread is the only caller of add and destroy; the semaphore and the mutex never report errors. In `PoolQueue.dfy` a queue operation is one step, because the mutex is held around it.
- cJSON: printing and parsing of references, deletion, duplication, array and object editing, allocation failure.
- XML: xml_easy_child and the other accessors, reading from a file, the error messages.
- Sockets, epoll, SSL, sqlite, pipes, the daemon, the command table, SOAP analysis, the build script and the test clients are plumbing around these cores.
- common/timer.c, timers on top of epoll, is not part of this model.
