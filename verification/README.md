# JSON codec and peer discovery: a verified model

Two parts of the repository are modelled.

**The JSON codec** (`lib/cjson/cJSON.c`). `JsonText` has the trees and the printed text,
`JsonParse` the parser as a function of the bytes. `PrintedForm`, `Numbers` and `Errors` say what
these two are, byte by byte: the text that is printed, the int that is read, where an error is. On
them rest the round trip (`RoundTrip`), the UTF-16 escapes (`Utf8Literals`), the two passes over a
string literal (`StringBound`), and what minifying does to printed texts (`MinifyPrint`) and to
texts that are read (`MinifyPhases`, `MinifyParse`, `MinifyExact`, `MinifyMeaning`). `Bits` says what
stands for the bit operations.
The code itself, with its cursors, buffers, allocations and links, is in `ParseBuffer`, `PrintBuffer`,
`Minify`, `Compare`, `Duplicate`, `Ownership` and `Siblings`; each routine is proved to compute
what the functions say.

**The peer discovery** (`peers.c`, `nodes.c`, `remote_procedure.c`). `Peers` has the peer table
and its growable buckets, `Neighbours` the distance, the sort and the choice of the next hop,
`Rpc` one node's reaction to a message, as a function and as a process. `Network` is the
transition system: any number of nodes, any number of queries at a time, messages in flight
that may be delivered in any order or be lost, nodes that start, time out and exit. `Network`,
`Queries` and `Joins` prove what holds over every run.

How to read a contract: `byte` is `char`, `cstring` a byte sequence without NUL. A class with a
`Contents()` or `Within()` is the mutable object; its methods say how that value changes. A
`Heap` is the set of blocks allocated now; `Allocate` fails whenever it likes, `failures` counts
how often it did.

## Findings

- `MinifyPrint.MinifyPrinted`: minifying the formatted print gives the unformatted print unless
  a string ends in a backslash, because `minify_string` pairs every `\"`. The exact condition
  exempts one string: the last one, when nothing but closing square brackets follow it.
- `MinifyMeaning.MinifyKeepsMeaning`: for the same reason Minify can be in step with the parser or
  out of it, and while it is out of step it drops blanks, slashes and comments from strings. An
  accepted text without an escaped NUL is read as before exactly when there are none to drop.
  `MinifyParse.MinifyLosesBlank` is a text that is read differently; `MinifyMeaning.NulHidesBlank`
  one with an escaped NUL that is read as before though a blank is dropped.
- `lib/cjson/cJSON.h:197-198` advises 5 bytes more than the text needs. Exactly 2 more are
  needed and suffice (`PrintBuffers.PrintPreallocated`).
- Two items with the same members compare equal exactly when members with the same key agree
  (`Compare.CompareIsPartialEquivalence`): an object that repeats a key with different values is
  unequal to its copy (`Compare.DuplicateKeysCompareUnequal`). The same item is equal to itself,
  because pointers are compared first.
- The distance is kept in 32 bits and bytes from 0x80 on are negative, so it is a metric on plain
  text but not on all of it. `Neighbours.DistanceIsMetric` says exactly which texts are at
  distance 0 and exactly when the triangle inequality holds, `Neighbours.WrapsUnless` exactly when
  the sum wraps around; `Neighbours.DistanceWraps` has two different texts at distance 0, and a
  third that is far from one and near to the other.
- Measuring adds to the distance that is there, so a neighbour measured twice is twice as far
  (`Neighbours.MeasuringAdds`).
- The probing loop of `set_peer` looks at one bucket only, and drops a peer that does not fit there
  (`Peers.ProbingTakesOne`).
- That loop and the NULL bucket of `get_peer_bucket` are unreachable from a
  zeroed table; so is the branch `strcmp(hash, "") < 0` (`remote_procedure.c:131`), which `Rpc`
  leaves out.
- `nodes.h:70-79` says that not answering the sender prevents infinite calls between two nodes.
  Between three it does not (`Queries.TriangleNeverEnds`); where neighbours form no cycle every
  query ends (`Queries.QueryIsSimplePath`), and `Queries.EndlessQuery` is a finite test.
- `init_peer_table` leaves the tables empty, and `test/client_test.c:78-141` puts nothing into its
  own but what it receives. Among such nodes no JOIN is ever sent and every reply is empty, so whoever times out exits
  (`Queries.EmptyTablesStayEmpty`). Peers spread only from tables that are filled otherwise, as in
  `test/rpc_test.c:84-95`.
- Replies carry `method` in network byte order and `recv_rpc` does not convert it
  (`remote_procedure.c:103`), so a JOIN reply takes the `default` branch on a little-endian host; either way it changes
  no state.

## Model

| member | source | states |
|---|---|---|
| RoundTrip.PrintThenParse | lib/cjson/cJSON.c:1036-1106 | for every tree of null, booleans, ints, strings, arrays and objects, formatted or not: parsing the printed text gives that tree back and consumes all of it when containers nest at most 1000 deep, and fails otherwise |
| RoundTrip.ValueBack | lib/cjson/cJSON.c:1239-1293 | the same for a value inside a text, at any nesting, provided no number byte follows it |
| RoundTrip.AfterItem | lib/cjson/cJSON.c:1450-1501 | what the printer puts behind an array element ends a number and leads the parser to the next element or the closing bracket |
| RoundTrip.AfterMember | lib/cjson/cJSON.c:1611-1708 | what the printer puts behind a member's value ends a number and leads the parser to the next key or the closing brace |
| RoundTrip.NumberBack | lib/cjson/cJSON.c:286-376 | a printed int, with no number byte behind it, is read back as that int |
| RoundTrip.StringBack | lib/cjson/cJSON.c:853-961 | an escaped and quoted string is read back as that string, ending behind its quote |
| PrintedForm.PrintedByte | lib/cjson/cJSON.c:930-955 | the two-byte escapes of quote, backslash, \b, \t, \n, \f and \r; \u00XX in lower case for the other control bytes and for no other; all other bytes as they are |
| PrintedForm.PrintedString | lib/cjson/cJSON.c:853-961 | a string is printed byte by byte, between quotes |
| PrintedForm.PrintedInt | lib/cjson/cJSON.c:535-594 | ints are printed in decimal without leading zeros |
| PrintedForm.PrintedLayout | lib/cjson/cJSON.c:1450-1708 | where the formatted print has line breaks, tabs and blanks, and that the other has none: for arrays, objects and empty ones inside each other |
| PrintedForm.MembersIndented | lib/cjson/cJSON.c:1611-1708 | members are indented by the depth around them |
| PrintedForm.PrintedAsIs | lib/cjson/cJSON.c:1312-1345 | raw text is printed as it is |
| PrintedForm.TowerDepth | lib/cjson/cJSON.c:1362-1608 | arrays and objects, in any order inside each other, count one each for the nesting |
| Numbers.PartsRead | lib/cjson/cJSON.c:286-376 | a number with or without a sign, a fraction and an exponent, of either letter and any sign, is taken apart as it was put together, and all of it is read |
| Numbers.NumberReads | lib/cjson/cJSON.c:286-376 | it is read as an int when moving the point, by the exponent less the digits behind it, gives the digits of that int |
| Numbers.NumberReadsIff | lib/cjson/cJSON.c:334-376 | it is read as an int v if and only if v is what it denotes, with both sides scaled to whole numbers; as text otherwise |
| Errors.BadStart | lib/cjson/cJSON.c:1239-1293 | a byte no value starts with is where the error is, behind a byte order mark and blanks |
| Errors.SomethingBehind | lib/cjson/cJSON.c:1062-1105 | something behind a whole value is the error if a NUL is required, and does not matter otherwise |
| Errors.UnclosedString | lib/cjson/cJSON.c:743-764 | a string that is never closed is an error behind its opening quote |
| Errors.ElementThenNeither | lib/cjson/cJSON.c:1418-1425 | an element with neither a comma nor a bracket behind it is an error at what is there instead |
| Errors.ElementThenNothing | lib/cjson/cJSON.c:1089-1096 | and at the last byte if nothing is there |
| Errors.KeyThenNoColon | lib/cjson/cJSON.c:1556-1575 | a key without a colon is an error at what is there instead |
| Errors.TooDeep | lib/cjson/cJSON.c:1367-1370 | the bracket behind 1000 others is the error, whatever comes after it |
| Errors.MarkPassedOver | lib/cjson/cJSON.c:1005-1017 | a byte order mark in front of a printed tree makes no difference to the tree |
| Utf8Literals.EscapeDecodes | lib/cjson/cJSON.c:597-727 | every scalar value written as one \uXXXX or a pair of them, with each digit in upper or lower case, decodes to one well-formed UTF-8 sequence, whose bits are that value |
| Utf8Literals.EverySpelling | lib/cjson/cJSON.c:674-676 | every scalar value can be written so |
| Utf8Literals.HexValueIs | lib/cjson/cJSON.c:597-620 | a byte is read as a digit d if and only if it is the decimal digit d, or the letter for d in either case |
| Utf8Literals.MalformedIsZero | lib/cjson/cJSON.c:597-620 | four bytes with one among them that spells no digit are read as 0 |
| Utf8Literals.EscapesRead | lib/cjson/cJSON.c:783-823 | which byte each escape of two bytes stands for; all escapes but these and \u are rejected |
| Utf8Literals.Utf8Decodes | lib/cjson/cJSON.c:682-721 | the bytes emitted for a scalar value are well-formed by section 4 of RFC 3629 and denote it |
| Utf8Literals.Utf8Unique | lib/cjson/cJSON.c:682-721 | no other well-formed sequence denotes it |
| Utf8Literals.PairOfScalar | lib/cjson/cJSON.c:674-676 | a value from 0x10000 on has a surrogate pair that combines to it |
| Utf8Literals.ScalarOfPair | lib/cjson/cJSON.c:674-676 | every pair combines to such a value, and is the pair of it: with the above, one-to-one |
| Utf8Literals.LoneSurrogate | lib/cjson/cJSON.c:637-672 | of the literals with four hexadecimal digits exactly the lone surrogates, and the high ones without a well-formed low one behind, are rejected |
| StringBound.DecodeFits | lib/cjson/cJSON.c:742-829 | for every literal the first pass accepts, malformed \u digits included, the decoded bytes never exceed what the first pass reserved |
| StringBound.StepFits | lib/cjson/cJSON.c:778-826 | one step of the second pass uses up at least as much of the reservation as it writes, in or out of step with the first |
| StringBound.Utf16Fits | lib/cjson/cJSON.c:625-727 | a \uXXXX literal or a pair writes no more than the units it covers, even when its digits are not digits |
| ParseBuffers.ParseBuffer.ParseDocument | lib/cjson/cJSON.c:1036-1106 | when no allocation of this call fails, the tree, the end and the error position are those of `JsonParse.Parse`, and when one does the call fails; on success exactly the tree's blocks are live in addition, on failure none |
| ParseBuffers.ParseBuffer.ParseValue | lib/cjson/cJSON.c:1239-1293 | the same for a value, at any cursor and depth; depth is restored on success |
| ParseBuffers.ParseBuffer.ParseArray | lib/cjson/cJSON.c:1362-1447 | the same for an array |
| ParseBuffers.ParseBuffer.ParseElementList | lib/cjson/cJSON.c:1391-1425 | its loop; the length left to read decreases, step-backs included |
| ParseBuffers.ParseBuffer.ParseObject | lib/cjson/cJSON.c:1504-1608 | the same for an object |
| ParseBuffers.ParseBuffer.ParseMemberList | lib/cjson/cJSON.c:1532-1587 | its loop |
| ParseBuffers.ParseBuffer.ParseString | lib/cjson/cJSON.c:730-850 | reads what `JsonParse.ParseString` says; the output buffer is large enough for every input; it is freed on failure |
| ParseBuffers.ParseBuffer.DecodeLiteral | lib/cjson/cJSON.c:776-829 | the second pass fills the buffer with the decoded bytes, within `allocation_length` |
| ParseBuffers.ParseBuffer.ScanLiteral | lib/cjson/cJSON.c:743-764 | the first pass finds the closing quote and counts the skipped bytes |
| ParseBuffers.ParseBuffer.ConvertUtf16 | lib/cjson/cJSON.c:625-727 | writes the UTF-8 of the code point, or nothing when the literal is rejected |
| ParseBuffers.ParseBuffer.WriteUtf8 | lib/cjson/cJSON.c:682-721 | the loop from the last byte to the first writes the sequence of the code point |
| ParseBuffers.ParseBuffer.ParseHex4 | lib/cjson/cJSON.c:597-620 | the number of four hexadecimal digits, and 0 when one of them is none |
| ParseBuffers.ParseBuffer.ParseNumber | lib/cjson/cJSON.c:286-376 | reads what `JsonParse.ParseNumber` says |
| ParseBuffers.ParseBuffer.SkipWhitespace | lib/cjson/cJSON.c:983-1002 | moves behind every byte up to 32, and back onto the last byte when only those were left |
| RoundTrip.ParsedDepth | lib/cjson/cJSON.c:1362-1608 | no tree that is parsed nests more than 1000 containers |
| RoundTrip.ParsePrintParse | lib/cjson/cJSON.c:1036-1181 | whatever is parsed, with ints for numbers, is given back when it is printed, formatted or not, and parsed again |
| Bits.PairBits | lib/cjson/cJSON.c:674-676 | the masks, the shift and the or that combine a surrogate pair give `Combine` |
| Bits.TailBits | lib/cjson/cJSON.c:706-712 | the or and the mask give each trailing byte of `Utf8Bytes` |
| Bits.LeadBits | lib/cjson/cJSON.c:713-719 | the or with the mark and the mask, or the mask alone, give the first byte of `Utf8Bytes` |
| PrintBuffers.PrintPreallocated | lib/cjson/cJSON.c:1219-1236 | succeeds if and only if the length is at least that of the text and 2, and then leaves the text and its NUL; nothing behind the length is touched, on failure either |
| PrintBuffers.Print | lib/cjson/cJSON.c:1120-1181 | yields exactly the text and its NUL, unless memory runs out or the text and 2 exceed INT_MAX |
| PrintBuffers.PrintBuffered | lib/cjson/cJSON.c:1190-1217 | yields a buffer that starts with the text and its NUL, unless memory runs out, the first size is negative or the text and 2 exceed INT_MAX |
| PrintBuffers.PrintBuffer.PrintValue | lib/cjson/cJSON.c:1296-1359 | appends the rendered value to the bytes before the offset, and succeeds exactly when it and 2 more bytes fit; depth is restored; a preallocated buffer is never replaced nor written behind its length |
| PrintBuffers.PrintBuffer.PrintArray | lib/cjson/cJSON.c:1450-1501 | the same for arrays |
| PrintBuffers.PrintBuffer.PrintObject | lib/cjson/cJSON.c:1611-1708 | the same for objects |
| PrintBuffers.PrintBuffer.PrintString | lib/cjson/cJSON.c:853-961 | the same for strings: the escapes are counted first, and the count is exact |
| PrintBuffers.PrintBuffer.PrintNumber | lib/cjson/cJSON.c:535-594 | the same for a number's text of at most 25 bytes; a longer one fails |
| PrintBuffers.PrintBuffer.Ensure | lib/cjson/cJSON.c:447-515 | succeeds exactly when the request fits the limit, then has room for it, keeps the bytes before the offset and says how far may be written; every write of the printer is proved to stay within |
| PrintBuffers.PrintBuffer.UpdateOffset | lib/cjson/cJSON.c:518-526 | moves the offset to the NUL behind what was printed |
| PrintBuffers.RenderNoNul | lib/cjson/cJSON.c:518-526 | a rendered text holds no NUL, so the offset lands behind all of it |
| Minify.Minifier.Run | lib/cjson/cJSON.c:2628-2667 | in place, the text becomes `Minified` of it and a NUL; the write cursor never passes the read cursor and nothing behind the text changes |
| Minify.BlanksDropped | lib/cjson/cJSON.c:2635-2663 | outside a string, exactly space, tab, return, newline and a slash that starts no comment are dropped |
| Minify.LineCommentDropped | lib/cjson/cJSON.c:2585-2594 | a comment up to the newline, or up to the end, is dropped |
| Minify.CommentDropped | lib/cjson/cJSON.c:2596-2605 | a comment up to the first closing mark, or up to the end, is dropped |
| Minify.Minifier.MinifyString | lib/cjson/cJSON.c:2607-2626 | copies a string up to its closing quote, as far as it can tell |
| Minify.Minifier.SkipOnelineComment | lib/cjson/cJSON.c:2585-2594 | skips to behind the newline or to the end |
| Minify.Minifier.SkipMultilineComment | lib/cjson/cJSON.c:2596-2605 | skips to behind the closing mark or to the end |
| MinifyPrint.MinifyTwice | lib/cjson/cJSON.c:2628-2667 | for every text, minifying twice is minifying once |
| MinifyPrint.MinifyPrinted | lib/cjson/cJSON.c:2607-2667 | minifying the formatted print gives the unformatted one if and only if no string or key ends in a backslash, but for a last string in arrays alone |
| MinifyPrint.BackslashKeepsBlank | lib/cjson/cJSON.c:2607-2626 | a tree for which it does not |
| MinifyMeaning.MinifyKeepsMeaning | lib/cjson/cJSON.c:2607-2667 | an accepted text without an escaped NUL gives the same tree after minifying if and only if nothing is dropped from a string: no blank and no slash stands in one where Minify takes itself to be outside |
| MinifyPhases.CleanIsKept | lib/cjson/cJSON.c:2607-2626 | where no closing quote comes behind a backslash, nothing is dropped from a string |
| MinifyParse.KeptIsReadAlike | lib/cjson/cJSON.c:2628-2667 | with any escapes, if nothing is dropped from a string the tree is the same |
| MinifyExact.Outside | lib/cjson/cJSON.c:2607-2667 | on a text of well-formed strings without an escaped NUL: minifying adds no string, no slash to its decoded strings and no byte, in that order, and takes some if anything is dropped from a string, whatever becomes of quotes and comments |
| MinifyMeaning.TextWeight | lib/cjson/cJSON.c:1036-1106 | the strings of an accepted text, their slashes and bytes, counted in the text, are those of its tree |
| MinifyMeaning.NulHidesBlank | lib/cjson/cJSON.c:2607-2626 | a text with an escaped NUL from which a blank is dropped and which is read as before |
| MinifyParse.MinifyLosesBlank | lib/cjson/cJSON.c:2607-2626 | an accepted text that is read differently after minifying |
| Compare.CompareIdentical | lib/cjson/cJSON.c:2748-2774 | an item is equal to itself at once, and to another one as `CompareTrees` says |
| Compare.CompareRun | lib/cjson/cJSON.c:2748-2856 | the loops and lookups decide `CompareTrees` on two items that share none; where they share some the answer lies between `CompareTrees` and `MayCompare` |
| Compare.MayCompareDenotes | lib/cjson/cJSON.c:2748-2856 | so whatever they share, trees of integers that compare equal denote the same |
| Compare.GetObjectItem | lib/cjson/cJSON.c:1755-1783 | the first member whose key matches, in either mode |
| Compare.FindIsFirst | lib/cjson/cJSON.c:1755-1783 | a member behind others whose keys do not match is found if its key does; there is none if no key does |
| Compare.EpsilonOfDouble | lib/cjson/cJSON.c:529-532 | over the reals: two positive numbers compare equal if and only if they differ by at most 2 to the minus 52 of the larger; two negative ones likewise; numbers of different sign never, nor 0 and another |
| Compare.KeysMatch | lib/cjson/cJSON.c:132-156 | the loop decides whether keys are equal, after lower-casing in the insensitive mode |
| Compare.KeysMatchByBytes | lib/cjson/cJSON.c:132-156 | keys match when they are equal, or, in the insensitive mode, when they have one length and at each place equal bytes or the two cases of one letter; and only then |
| Compare.CompareDecides | lib/cjson/cJSON.c:2748-2856 | on all trees of integers, true if and only if both are consistent, members with the same key agreeing, and denote the same, objects taken as maps |
| Compare.CompareIsPartialEquivalence | lib/cjson/cJSON.c:2748-2856 | so it is symmetric and transitive, and holds between a tree and its like if and only if the tree is consistent |
| Compare.DistinctIsConsistent | lib/cjson/cJSON.c:1755-1783 | trees without repeated keys are consistent |
| Compare.DuplicateKeysCompareUnequal | lib/cjson/cJSON.c:2808-2848 | an object that repeats a key with another value is unequal to another item just like it |
| Duplicate.DuplicateRec | lib/cjson/cJSON.c:2506-2583 | a copy owns fresh blocks and is item for item the same; a call fails exactly when one of its allocations does or items nest more than 10000 deep; a failure leaves nothing allocated |
| Duplicate.GenerationsAreNesting | lib/cjson/cJSON.c:2542-2569 | the generations that the copier counts are the nesting of the tree, or one less where the innermost containers are empty |
| Duplicate.CopyIsEqual | lib/cjson/cJSON.c:2502-2583 | a copy is the same tree |
| Duplicate.CopyComparesEqual | lib/cjson/cJSON.c:2502-2583 | a copy compares equal to its source if and only if the source is consistent |
| Ownership.Heap.Delete | lib/cjson/cJSON.c:233-251 | frees every block the items own, each once, and nothing else: not what a reference points to, nor a constant key |
| Ownership.Heap.DeleteItem | lib/cjson/cJSON.c:236-248 | the same for one round of its loop |
| Ownership.WhatIsSpared | lib/cjson/cJSON.c:236-248 | what an item owns, in every combination: a reference no text and no children, an item with a constant key not that key |
| Ownership.AppendFilled | lib/cjson/cJSON.c:1394-1420 | filling an item and appending it to a list keeps the account of what is allocated |
| Siblings.AddItemToArray | lib/cjson/cJSON.c:1827-1852 | the links of the children become those of the old chain with the item behind it, if and only if the item is first or has no next one of its own |
| Siblings.GetArrayItem | lib/cjson/cJSON.c:1731-1745 | the child at the index, or null |
| Siblings.DetachItem | lib/cjson/cJSON.c:2044-2073 | the chain becomes the old one without the item, which is left unlinked; nothing happens to a null or detached item |
| Siblings.InsertItemInArray | lib/cjson/cJSON.c:2113-2140 | the chain has the item before the index, or at the end under the same condition |
| Siblings.ReplaceItem | lib/cjson/cJSON.c:2142-2183 | the chain has the replacement in the item's place, and the item, unlinked, is what gets deleted; null parents, items and replacements change nothing |
| Siblings.LinkChildren | lib/cjson/cJSON.c:1402-1432 | linking new items one by one, and last the first to the last, makes them the chain of the children; the copier does the same |
| Peers.Hash | peers.c:25-34 | the loop computes the 32-bit hash modulo the number of buckets, of which the next three say what it is |
| Peers.MixInjective | peers.c:28-31 | one round loses nothing: it is injective in the byte and in the 32-bit hash before it |
| Peers.OneByteMatters | peers.c:25-34 | keys of one length that differ in one byte have different 32-bit hashes |
| Peers.KnownBuckets | peers.c:25-34 | the buckets of five keys, the empty one included |
| Peers.KeysApart | peers.c:36-94 | a peer set under "a" is found there and not under "b"; nor is one set under "13" found under "14" |
| Peers.SetPeerAppends | peers.c:36-78 | from a tidy table a peer is appended to the one bucket its key belongs to, and no other changes |
| Peers.LookupFinds | peers.c:80-94 | in a tidy table a bucket is always found |
| Peers.LookupClimbs | peers.c:80-94 | in any table a bucket is found if and only if its label, counted up as far as the loop goes, meets the hash |
| Peers.ProbingTakesOne | peers.c:47-65 | what probing does, from any table: it looks at one bucket; the peer goes there if it is free, and a second one is then dropped |
| Peers.TableRefinesMap | peers.c:36-94 | over every sequence of calls from a zeroed table: each bucket holds what was set under it, in order, lookup never fails, and probing is never reached |
| Peers.PeerTable.SetPeer | peers.c:36-78 | the buckets change as `WithPeer` says, from any state of them |
| Peers.PeerTable.GetPeerBucket | peers.c:80-94 | finds the bucket `Lookup` says, from any state, a key that wraps around included |
| Peers.PeerArray.PushPeer | peers.c:137-147 | appends, through doubling, and keeps the account of moved elements |
| Peers.PeerArray.PopPeer | peers.c:149-156 | takes back what the last push appended, or says there is nothing |
| Peers.PeerArray.Amortized | peers.c:120-135 | n pushes make the reallocations move fewer than 2n elements |
| Neighbours.XorDistance | nodes.c:118-123 | adds the sum of the bytes' exclusive ors to the distance, in 32 bits |
| Neighbours.MeasuringAdds | nodes.c:118-131 | measuring adds to what is there: measured twice, a neighbour is at twice its distance |
| Neighbours.DistanceIsMetric | nodes.c:118-123 | the 32-bit distance is symmetric; zero between equals and, of others, exactly where the signs make up for the low bits; and satisfies the triangle inequality if and only if `Triangle` does, which a caller can compute from the bytes, as always where the two sums do not wrap, and so in plain text |
| Neighbours.WrapsUnless | nodes.c:118-123 | the sum wraps around if and only if two bytes, or one and 0x80 in the low bits, differ in sign |
| Neighbours.DistanceWraps | nodes.c:118-123 | two different texts at distance 0 and a triangle inequality that fails, without a NUL in them |
| Neighbours.CompareHash | nodes.c:125-146 | measures the first n neighbours, sorts them as `Sort` says and leaves the others |
| Neighbours.SinkInto | nodes.c:134-144 | the swaps put an element at its place among the sorted ones before it |
| Neighbours.SortIsPermutation | nodes.c:125-146 | the result is sorted and has the same neighbours |
| Neighbours.SortIsStable | nodes.c:125-146 | neighbours at one distance stay in their order |
| Neighbours.ForwardsToNearest | nodes.c:60-87 | among sorted neighbours the query goes to a nearest one but the caller, and to none only if there is no other |
| Neighbours.QueryGoesToNearest | nodes.c:60-146 | measured, sorted and chosen from, a neighbour is nearest to the hash, by the 32-bit distance, among those other than the caller |
| Rpc.NodeProcess.RecvRpc | remote_procedure.c:89-347 | the table, the flag and the messages sent are those of `Recv`, from any state |
| Rpc.NodeProcess.GetPeers | nodes.c:40-90 | sends the call that `Query` says, or none |
| Rpc.NodeProcess.JoinPeers | nodes.c:13-38 | sends a JOIN to every peer of the bucket in order, and says whether there is any |
| Rpc.NodeProcess.Accept | remote_procedure.c:284-287 | sets every peer of a reply under the process's own key |
| Network.RecvKeeps | remote_procedure.c:89-347 | one message: the table stays tidy and grows by appending; what is new comes from the message; what is sent comes from the table |
| Network.NoPeerInvented | remote_procedure.c:211-312 | in every run each peer in a table or in a reply in flight was in a table at the start or is the address of a node that sent a JOIN |
| Network.BucketsOnlyGrow | peers.c:36-94 | in every run buckets only grow, by appending, and lookup never gives NULL |
| Network.BucketFound | remote_procedure.c:154-208 | with a tidy table the reply with no peers to the caller is never sent |
| Queries.SingleToken | remote_procedure.c:112-208 | in every run, with other queries under way: of a node's query at most one message is in flight, once; its source never changes, each call goes to the first neighbour but the sender, and at most one reply is ever sent, to the source, with peers of the node that gave it |
| Queries.RecvPasses | remote_procedure.c:112-208 | a message gives rise to at most one message of the query it belongs to, and of no other |
| Queries.QueryIsSimplePath | nodes.c:40-90 | where the neighbours form no cycle, a query visits no node twice, makes at most as many hops as there are nodes, and fewer when all neighbours are nodes of the network |
| Queries.WalkIsPath | nodes.h:70-79 | a walk that never goes straight back, among neighbours without a cycle, is a simple path |
| Queries.QueryLength | nodes.c:60-87 | from empty tables some run takes a query k hops if and only if the first neighbours but the sender lead on that far |
| Queries.EndlessQuery | nodes.h:70-79 | from empty tables a query can go on for ever if and only if the neighbours lead on for one hop more than there are pairs of nodes |
| Queries.EmptyTablesStayEmpty | remote_procedure.c:112-312 | from empty tables, in every run: the tables stay empty, no JOIN is sent or answered, every reply to a query is empty, and a node that times out exits |
| Queries.TriangleNeverEnds | nodes.h:70-79 | among three nodes next to each other a query can make any number of hops |
| Joins.AcknowledgedJoinsAreKept | remote_procedure.c:211-242 | in every run a JOIN goes only to a peer its sender has in its table, and whoever was sent a reply to one stays in the table of a node it sent it to |
| Joins.RecvJoins | remote_procedure.c:211-312 | the same for one message |
| Joins.OnlyPeerlessExit | test/client_test.c:110-133 | in every run a node exits on a time-out only when it knows no peer for its hash, and stops waiting only when it knows a peer or has no neighbour |
| Network.ReplyTaken | remote_procedure.c:263-312 | a reply's peers all go, in order, behind those of the node's own hash, and no other bucket changes; with two or more there, one JOIN goes to the ip and port of each of them, in order, and waiting ends; else nothing is sent |
| Network.TimeOutJoins | nodes.c:13-38 | over every run: on a time-out one JOIN goes to the ip and port of each known peer, in order, and no table changes; the node exits if it knows none |
| Network.JoinTaken | remote_procedure.c:224-245 | a JOIN whose reply is sent is answered by just that reply, and its sender put behind the peers of the node's own hash; no other bucket changes; one whose reply is not sent does nothing |
| Network.JoinLasts | remote_procedure.c:224-245 | over every run: from then on, for good, the sender of that JOIN stands in that place of the table |
| Network.CallsCarryKeys | nodes.c:47-80 | over every run: each GET_PEERS call carries the key of the node that sent it |
| Queries.AnsweredUnderKey | remote_procedure.c:154-221 | over every run of nodes that share a key: the reply to a query comes of a call with that key, and gives the first of the peers that the node called holds under it |
| Network.Ignored | remote_procedure.c:257-276 | a failed or empty reply, a reply to a JOIN and an unknown call change nothing and are not answered |
| Network.NullBucketAnswered | remote_procedure.c:163-180 | a bucket whose label is beyond its place is not found, and the caller, not the source, is sent no peers |
| Network.HowMuchFits | remote_procedure.c:209-215 | what fits: 25 peers into a payload, and 10 into the buffer of a receiver |

## Left out

- PrintThenParse: not for trees with numbers that are no 32-bit integers; those are kept as their text (`Real`), because the value of `strtod` and the digits of `sprintf` are not part of this model. The printer, the minifier, the copier and the buffer sizes do cover them, up to 25 bytes.
- ParseNumber: a literal stands for the number it denotes exactly, so one that `strtod` would round to an int, such as 0.99999999999999999999, is kept as text.
- CompareDecides: numbers that are no integers are compared by their text in the model, so the theorem is about integer trees; `compare_double` itself is over the reals.
- MinifyKeepsMeaning: behind an escaped or malformed `\u` that decodes to NUL a string is cut off, and what is dropped there may or may not be seen; `NulHidesBlank` shows that the condition is not exact there.
- PrintBuffered: with a first size of 0 and no `realloc` the first copy (`lib/cjson/cJSON.c:500`) would read a byte that is not there, so that case is excluded.
- InsertItemInArray, DetachItem, ReplaceItem: act on links alone, on items with no key or value; an item that is some other parent's child is the caller's error.
- Trees in `ParseBuffer`, `Duplicate` and `Ownership` are chains of values with an account of the blocks they own; the links between siblings, and how they are built, are in `Siblings`.
- Items of no known type; NULL strings.
- The hooks, beyond an allocation's success or failure; what `realloc` keeps behind the offset.
- The bytes behind a text's NUL, which `cJSON_Minify` and the parser never read.
- Sockets, `select`, byte order and message layout: `htons` and `ntohs` cancel, a message is a value. A send that fails is a message that is lost, except for the reply to a JOIN, where it decides whether the peer is added.
- The return codes of `recv_rpc`, correlation ids, segment counts and printed diagnostics.
- Replies of more than 10 peers, and buckets too full for the payload: `Rpc.Fits` is the precondition, and `Network` delivers only what fits.
- Every process has one file hash, and buckets start zeroed.
- `bootstrap_neigbors`: each node's neighbours are given.
- `push_node` and `pop_node`: the same code as `push_peer` and `pop_peer`.
- `cJSON_Is*`, `cJSON_Create*`, `cJSON_Add*ToObject`, array constructors and version: thin members.
