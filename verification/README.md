# The HTML parser of Nokogiri, verified

Nokogiri carries its own HTML parser, a fork of Gumbo, in `gumbo-parser/src`, and
two small pieces of C that walk its tree and write text, in `ext/nokogiri`. This
project models the algorithms of that code and proves what they promise. Each
module is one component:

* `RobinHood`, `HashMap`, `HashLimits`, `Masks`: the Robin Hood hash table of
  `hashmap.c` with its 16-bit distances, refined to a finite map over every run of
  calls, up to the exact number of entries for which that is true.
* `Utf8`, `Utf8Laws`, `StringBuffer`: the growable buffer of `string_buffer.c`
  against the decoder of `utf8.c` (section 3 of RFC 3629), in both directions, and
  what the decoder makes of malformed input.
* `Tags`, `Attributes`, `Dom`, `OpenElements`, `InsertionPlace`, `FormattingList`,
  `TreeConstruction`: nodes linked both ways, the stack of open elements and the
  list of active formatting elements, with the operations of `parser.c` on them.
* `AdoptionSteps`, `AdoptionWalk`, `AdoptionArk`, `Shelter`, `AdoptionAgency`,
  `Verdicts`, `AdoptionRun`, `PassLaws`: the adoption agency algorithm (section
  13.2.6.4.7 of the HTML Standard).
* `DocumentText`, `AdoptionText`, `TextRuns`: what it does to the text of the
  document, in one pass and over a whole run.
* `TreeWalk`, `TreeCopy`: the two traversals that keep no stack, `tree_traverse`
  and `build_tree`.
* `RawText`, `TagAttributes`, `CharRefs`: what the tokenizer makes of raw text, of
  attributes and of character references, each against a reference definition
  that does not mention states. `RawLaws` and `References` say what those
  definitions come to, character by character.
* `LexStates`, `Tokenizer`: all states of `tokenizer.c`; the lexer always makes
  progress, and in the data state it returns the tokens of `Lookahead`, a reader
  without states, which `TokenLaws` describes character by character.
* `Escaping`: the escaping serializer, undone by the tokenizer.
* `OpenTags`, `InsertionModes`, `StackSteps`, `TreeBuilder`: the insertion modes for
  the body, tables, selects and templates on the stack of tags.

## How to read it

Code that updates fields in place is modelled by classes and methods with loops;
their contracts tie the new state to a function of the old one, or to a predicate
that says what the step means. The links of the DOM are taken as snapshots
(`Shape`), so that the lemmas about trees are about values and the methods are
proved equal to them.

Where the code departs from what one might expect, the model follows the code:

* Step 14.5 of the adoption agency takes the element from the list only and leaves
  it on the stack (`parser.c:2317-2330`); the standard removes it from both.
* The scope test of step 8 is by tag, not by node (`parser.c:2225`).
* `resize0` sets the growth threshold from the default load factor whatever factor
  has been set (`hashmap.c:226-261`), and the comment on clamping says 90 where the
  code says 95 (`hashmap.c:67-73`).
* `utf8_is_control` takes 0x1F for no control character.
* The branch that ignores `</html>` after the body of a fragment is never taken: a
  fragment has no body on its stack and does not reach that mode.
* An attribute name beyond the limit counts as too many even when it is a duplicate
  (`tokenizer.c:791-870`).

Some claims that would be false are replaced by the exact condition, with a state
or a run in which they fail:

* The hash table does not bear every number of entries: its distances have 16 bits.
  There is room for one more key in every table of n entries if and only if n is
  below 65535 (`HashLimits.Limit`); one particular table takes another key if and
  only if no distance wraps (`RobinHood.SettingWorks`). `HashLimits.LoseKey` is a run
  of sets that ends with a stored key that is not found.
* A pass of the adoption agency does not always keep the text of the document: it
  does if and only if the text of the furthest block commutes with the text between
  its old and its new place (`AdoptionText.TextKept`). Over a run that starts on a
  rightmost path it does as long as no pass meets more than three elements between
  the formatting element and the block (`TextRuns.RunKeepsText`). Beyond three, step
  14.5 leaves elements on the stack that the tree no longer agrees with.
  `TextRuns.ReorderText` runs the algorithm on the simplest state of that kind and
  turns the text 123 into 132; by the rules of the tree builder
  `<b><i>1<em><strong><u><p></b></p>2<div>3</em>` leads to such a state too.
* Escaped text comes back unchanged if and only if it has no carriage return
  (`Escaping.SurvivesExactly`).
* The doubling loop of the string buffer ends if and only if the length wanted is at
  most 5 * 2^61 (`StringBuffers.LoopEnds`).

## Model

| member | source | states |
|---|---|---|
| HashMaps.HashMap.Run | gumbo-parser/src/hashmap.c:207-405 | Any sequence of set, get, delete and clear calls, of any length, with growth, shrinking and failing allocations in between, is answered as one finite map would answer it, as long as no set or delete leaves more than 65535 keys |
| HashMaps.HashMap.Get | gumbo-parser/src/hashmap.c:327-343 | The stored item exactly when the key is in the map; stopping at the first empty bucket misses nothing |
| HashMaps.HashMap.Set | gumbo-parser/src/hashmap.c:270-314 | For any number of entries: the table is that of the insertion loop, and stays valid if and only if the key was there or no distance wraps; up to 65535 keys that is always so, and the old item is returned. When growing runs out of memory the table is unchanged bucket for bucket |
| HashMaps.HashMap.Delete | gumbo-parser/src/hashmap.c:366-405 | Exactly this key goes, its item is returned, and the table is halved only when it has become sparse |
| HashMaps.HashMap.Clear | gumbo-parser/src/hashmap.c:207-224 | The map is empty; the capacity is kept or reset, and a failed allocation leaves a usable table |
| HashMaps.HashMap.Resize0 | gumbo-parser/src/hashmap.c:226-261 | Rehashing keeps the map, for any number of entries whose distances fit; on failure nothing changes; the growth threshold falls back to the default load factor |
| HashMaps.HashMap.constructor | gumbo-parser/src/hashmap.c:104-162 | An empty table whose size is the smallest power of two from 16 up that holds the wanted capacity |
| HashMaps.HashMap.SetLoadFactor | gumbo-parser/src/hashmap.c:67-79 | Clamped to 50..95 percent; a NaN keeps the stored factor but for 57 and 58 percent, which lose one percent to rounding; every invariant holds with the new threshold |
| HashMaps.HashMap.SetGrowByPower | gumbo-parser/src/hashmap.c:63-65 | Clamped to 1..16 |
| HashMaps.HashMap.Scan | gumbo-parser/src/hashmap.c:437-447 | Every entry of the map exactly once |
| RobinHood.Probe | gumbo-parser/src/hashmap.c:331-342 | Ends at the key, or at an empty bucket that proves its absence |
| RobinHood.InsertLoop | gumbo-parser/src/hashmap.c:289-313 | Comparing and displacing in one loop computes the table of Setting, a function without a loop counter, for every table with a free bucket |
| RobinHood.ShiftBack | gumbo-parser/src/hashmap.c:382-393 | The backward shift restores home positions and distance order without the key |
| RobinHood.Rehash | gumbo-parser/src/hashmap.c:231-252 | The loop over the old buckets computes Rehashed |
| RobinHood.DibBound | gumbo-parser/src/hashmap.c:31-34 | Every distance field is at most the number of entries |
| RobinHood.SettingWorks | gumbo-parser/src/hashmap.c:282-313 | On a good table the loop yields a good table for the map with the new entry if and only if the key was there or no distance wraps; with fewer than 65535 entries none does, whatever the hash function |
| RobinHood.WrapBreaks | gumbo-parser/src/hashmap.c:290-313 | A distance that wraps at 16 bits always breaks the table |
| RobinHood.RehashWorks | gumbo-parser/src/hashmap.c:231-252 | The new buckets are a good table for the same map; up to 65535 entries no distance wraps on the way |
| RobinHood.SeekFinds | gumbo-parser/src/hashmap.c:331-342 | A lookup ends at the key if it is in the map and at an empty bucket if not |
| HashLimits.Limit | gumbo-parser/src/hashmap.c:31-34 | The limit of the 16-bit distance is exact: every good table of n entries, under every hash function, has room for one more key if and only if n is below 65535 |
| HashLimits.LoseKey | gumbo-parser/src/hashmap.c:282-313 | For every n from 65535 up, a run of n + 1 sets from the constructor after which a key that was set is not found |
| Masks.Masked | gumbo-parser/src/hashmap.c:83-87 | hash & mask is the remainder by the power-of-two size |
| Masks.AndMask | gumbo-parser/src/hashmap.c:83-87 | The same for every mask of the form 2^k - 1, by induction on bits |
| StringBuffers.StringBuffer.AppendText | gumbo-parser/src/string_buffer.c:53-79 | A sequence of code points appended one by one puts their encodings after the old contents, with length within capacity throughout |
| StringBuffers.StringBuffer.AppendCodepoint | gumbo-parser/src/string_buffer.c:53-79 | The old contents followed by the encoding of the code point |
| StringBuffers.StringBuffer.AppendString | gumbo-parser/src/string_buffer.c:81-88 | The old contents followed by the bytes |
| StringBuffers.StringBuffer.MaybeResize | gumbo-parser/src/string_buffer.c:25-38 | The doubling loop ends for every sum, wrapped or not, up to the largest capacity; the capacity covers it, doubles no more than needed, and the contents stay |
| StringBuffers.StringBuffer.Reserve | gumbo-parser/src/string_buffer.c:46-51 | Although the unsigned difference wraps, the capacity reaches the one asked for, and nothing changes if it was there |
| StringBuffers.LoopEnds | gumbo-parser/src/string_buffer.c:29-33 | From every capacity the buffer can have, the doubling loop ends if and only if the wanted length is at most 5 * 2^61 |
| Utf8.RoundTrip | gumbo-parser/src/utf8.c:110-168 | Every sequence of scalar values, encoded and read back, is itself up to newline normalisation |
| Utf8.ExactRoundTrip | gumbo-parser/src/utf8.c:76-125 | Without the newline rule every sequence of scalar values, encoded and decoded, is itself, carriage returns included |
| Utf8.InputRoundTrip | gumbo-parser/src/utf8.c:183-201 | With the byte order mark dropped at the start: one leading U+FEFF goes, the rest comes back normalised |
| Utf8.ReadsBack | gumbo-parser/src/utf8.c:76-86 | The table-driven decoder reads back exactly what was encoded, whatever follows; of all code points it rejects exactly the surrogates |
| Utf8.AcceptsOnlyEncodings | gumbo-parser/src/utf8.c:76-86 | Conversely it accepts nothing but encodings of scalar values: no overlong form, no surrogate |
| Utf8Laws.LongestStart | gumbo-parser/src/utf8.c:118-162 | A malformed read is one replacement character for the longest start of an encoding that stands there, or for a single byte if none does |
| Utf8.DecodeOne | gumbo-parser/src/utf8.c:118-162 | The loop of read_char computes the specified result on every input, malformed input included |
| Utf8.NormalisedWithoutCR | gumbo-parser/src/utf8.c:127-143 | Without carriage returns reading back is the identity |
| Attributes.AllAttributesMatch | gumbo-parser/src/parser.c:291-305 | On attribute vectors with distinct names the answer is equality of the attribute sets; the unsigned counter never wraps |
| Attributes.GetAttribute | gumbo-parser/src/parser.c:281-305 | The first attribute of that name, or none |
| FormattingList.AddEntry | gumbo-parser/src/parser.c:1345-1375 | Noah's Ark: of four equal elements since the last marker the earliest goes; every section keeps at most three |
| FormattingList.RemoveEntry | gumbo-parser/src/parser.c:2217-2220 | Exactly this element leaves the list, and the clause is kept |
| FormattingList.ArkReplace | gumbo-parser/src/parser.c:1345-1375 | Dropping the earliest of four and appending keeps the clause |
| FormattingList.ArkRemove | gumbo-parser/src/parser.c:1345-1375 | Removing one element keeps the clause, across the sections that join |
| Dom.RemoveFromParent | gumbo-parser/src/parser.c:2056-2076 | The node is unlinked and its later siblings renumbered; all other links stay |
| Dom.AppendNode | gumbo-parser/src/parser.c:891-908 | The node is the last child, linked both ways |
| Dom.InsertNode | gumbo-parser/src/parser.c:913-946 | The node stands at the position, and later siblings are renumbered by the loop |
| Dom.CloneNode | gumbo-parser/src/parser.c:1390-1417 | Same tag and attributes, no parent, no children |
| Dom.WrapChildren | gumbo-parser/src/parser.c:2386-2397 | The children move to the new node, which becomes the only child |
| Dom.DetachTree | gumbo-parser/src/parser.c:2056-2076 | Unlinking keeps the document a well-linked, acyclic tree |
| Dom.AttachTree | gumbo-parser/src/parser.c:891-946 | So does linking a root outside of its own subtree, at any position |
| Dom.AttachAnc | gumbo-parser/src/parser.c:891-946 | Exactly which nodes are below which after linking |
| Dom.WrapTree | gumbo-parser/src/parser.c:2386-2397 | So does putting a new node between another and its children |
| OpenElements.LocationFacts | gumbo-parser/src/parser.c:832-887 | The place for an open element is outside the subtrees of those opened after it |
| InsertionPlace.AppropriateIs | gumbo-parser/src/parser.c:832-887 | The appropriate location is the place told by stack and tree, in all four cases |
| InsertionPlace.InsertedIsPut | gumbo-parser/src/parser.c:832-946 | A node inserted there has the table as its next sibling and the old previous sibling of the table as its previous one, or is the last child |
| TreeConstruction.Parser.GetLocation | gumbo-parser/src/parser.c:832-887 | Told by stack and tree: under foster parenting the last open table with a parent and no template above it stands at the place; with a template above it the place is the end of that template, without a table the end of html, and for a table without a parent the end of the element below it on the stack; otherwise the end of the target |
| TreeConstruction.Parser.InsertNew | gumbo-parser/src/parser.c:913-946 | A new node is inserted; no reachable node is lost, the order of the stack is kept |
| TreeConstruction.Parser.FlushText | gumbo-parser/src/parser.c:948-987 | Pending text becomes exactly one new text node, directly before the last open table under foster parenting, otherwise as the last child |
| TreeConstruction.Parser.PopCurrentNode | gumbo-parser/src/parser.c:1000-1046 | Pending text goes to the place given by the stack before, as one new node, then the top element leaves the stack |
| TreeConstruction.Parser.InsertElement | gumbo-parser/src/parser.c:1152-1173 | Pending text is flushed first unless formatting elements are being reconstructed; the element is pushed, and becomes the previous sibling of the last open table under foster parenting, otherwise the last child of the current node; no other children change |
| TreeConstruction.Parser.Reconstruct | gumbo-parser/src/parser.c:1423-1487 | The list keeps the tag and attributes of every entry; the stack grows by exactly the clones in list order; the links are those of inserting the clones one after the other, each at the place the stack gives then; afterwards the last entry is a marker or open, and in such a state a call changes no node, link, stack or list |
| TreeConstruction.Parser.AddFormatting | gumbo-parser/src/parser.c:1345-1375 | Noah's Ark on the parser's own list |
| TreeConstruction.Parser.ClearToMarker | gumbo-parser/src/parser.c:1489-1501 | Exactly the last section and its marker go |
| TreeConstruction.Parser.RemoveFormatting | gumbo-parser/src/parser.c:2217-2220 | Exactly this element leaves the list |
| AdoptionRun.Run | gumbo-parser/src/parser.c:2149-2441 | The whole adoption agency algorithm: the tree stays well linked and acyclic, stack and list stay distinct, no stack entry is below a later one, every node stays reachable and every new one is, there are at most eight passes, each as Adopted says, and it ends as Decide says; pending text stays or is flushed as Popped says; Noah's Ark is kept. By positions on the stack and in the list: if the last listed element with the tag is open and something that ends the scope is open above every element with the tag, nothing at all changes; if it is not shielded so, the algorithm goes on, by moving a block if a special element is open above it and by closing it if not; if it is not open, it leaves the list; if none is listed, the tag is any other end tag |
| Verdicts.InScopeIs | gumbo-parser/src/parser.c:1567-1595 | In scope exactly if some open element has the tag and nothing above it ends the scope |
| Verdicts.ClosableIs | gumbo-parser/src/parser.c:2100-2144 | The topmost element with the tag if no special element is above it; none exactly if one is above every such element |
| AdoptionRun.OnePass | gumbo-parser/src/parser.c:2178-2440 | One pass: either over, with the stack and list that Decide names, or a block has been moved |
| AdoptionAgency.AdoptBlock | gumbo-parser/src/parser.c:2267-2439 | Steps 12 to 20: links, stack and list afterwards are given exactly by those before, up to the identity of the clones |
| PassLaws.WhatBecomes | gumbo-parser/src/parser.c:2277-2439 | Of the elements passed, the unlisted leave the stack; the listed leave the list, and within three of the block a copy replaces each on the stack and in the list, while those beyond three stay on the stack; the formatting element leaves both and its copy enters both |
| AdoptionAgency.WalkDown | gumbo-parser/src/parser.c:2277-2356 | Steps 13 and 14: every index and the bookmark stay in range and the loop ends |
| AdoptionAgency.CloneOne | gumbo-parser/src/parser.c:2339-2355 | Steps 14.7 to 14.10: the clone replaces the element in list and stack and adopts the subtree |
| AdoptionAgency.DropLate | gumbo-parser/src/parser.c:2317-2330 | Step 14.5: after three clones a listed element leaves the list, and stays on the stack |
| AdoptionAgency.DropUnlisted | gumbo-parser/src/parser.c:2331-2335 | Step 14.6: an element that is not listed leaves the stack |
| AdoptionAgency.Reattach | gumbo-parser/src/parser.c:2363-2373 | Step 15: the subtree is put at the appropriate place and everything is reachable again |
| AdoptionAgency.WrapBlock | gumbo-parser/src/parser.c:2376-2397 | Steps 16 to 18: the clone of the formatting element takes the children of the furthest block |
| AdoptionAgency.ReplaceFormatting | gumbo-parser/src/parser.c:2403-2439 | Steps 19 and 20: the clone enters list and stack at the bookmark and above the block |
| AdoptionSteps.AdoptStep | gumbo-parser/src/parser.c:2339-2355 | Tree, stack order and reachability after the last node has gone to a clone |
| AdoptionSteps.WrapStep | gumbo-parser/src/parser.c:2376-2439 | The wrapped block keeps tree, stack order and reachability |
| AdoptionWalk.WalkClone | gumbo-parser/src/parser.c:2339-2355 | Stack, list and links after one more clone, as functions of those at the start |
| AdoptionArk.AdoptedArk | gumbo-parser/src/parser.c:2267-2439 | A pass keeps Noah's Ark and the agreement of stack and list on markers that this needs |
| AdoptionRun.FindFormattingElement | gumbo-parser/src/parser.c:2179-2203 | The last listed element with the tag after the last marker |
| AdoptionRun.FindFurthestBlock | gumbo-parser/src/parser.c:2239-2251 | The first special element above the formatting element |
| AdoptionRun.AnyOtherEndTag | gumbo-parser/src/parser.c:2100-2144 | For every tag but html the stack is cut at the topmost element with the tag above every special element, or nothing changes |
| AdoptionRun.GenerateImpliedEndTags | gumbo-parser/src/parser.c:1706-1721 | Pops exactly while the top has an implied end tag and is not the exception |
| DocumentText.Around | gumbo-parser/src/parser.c:2363-2397 | The text of a tree is what precedes a subtree, the subtree, and what follows |
| AdoptionText.PassText | gumbo-parser/src/parser.c:2267-2397 | One pass, foster parenting included, takes the text of the furthest block out of the document text and puts it back at the place of step 15; everything else stays in order |
| AdoptionText.TextKept | gumbo-parser/src/parser.c:2267-2397 | The document text is unchanged if and only if the text of the block commutes with the text between its old and its new place |
| AdoptionText.OrdinaryText | gumbo-parser/src/parser.c:2267-2397 | When the common ancestor takes its own children, the block changes places with what follows it there; nothing changes when the stack is a rightmost path |
| TextRuns.RunKeepsText | gumbo-parser/src/parser.c:2149-2441 | Over a whole run without foster parenting the document text is unchanged, if the stack is a rightmost path at the start and no pass meets more than three elements between the formatting element and the block |
| TextRuns.TextChanges | gumbo-parser/src/parser.c:2317-2330 | In a state with an element that step 14.5 has left on the stack, a pass turns the text 123 into 132 |
| TextRuns.ReorderText | gumbo-parser/src/parser.c:2149-2441 | The whole algorithm run on that state: the text is 123 before and 132 after |
| AdoptionText.AllCarried | gumbo-parser/src/parser.c:2277-2363 | After any number of clones the block is all that has moved |
| TreeWalk.TreeTraverse | gumbo-parser/src/parser.c:371-409 | Post-order by parent and index_within_parent alone; it ends, and reads no node once it has been visited |
| TreeWalk.PostOrderCovers | gumbo-parser/src/parser.c:371-409 | Post-order has every node of the subtree exactly once |
| TreeCopy.BuildTree | ext/nokogiri/gumbo.c:183-301 | The one loop makes an isomorphic copy of the tree: shape, child order, content, attribute order, and the namespaces declared on the top-level element; for a document and for a fragment with several of them |
| RawText.ReadText | gumbo-parser/src/tokenizer.c:1018-1074 | RAWTEXT, script data and PLAINTEXT: the characters emitted up to the end of the text are exactly the input with NUL replaced, and the text ends where a grammar with lookahead says; rewinding loses, repeats and reorders nothing |
| RawText.FirstEndTag | gumbo-parser/src/tokenizer.c:1257-1329 | Outside of comment-like script data the text ends at the first appropriate end tag |
| RawLaws.EndsAt | gumbo-parser/src/tokenizer.c:1018-1074 | RAWTEXT, and script data without "<!--", end exactly at the first appropriate end tag, or at the end of the input |
| RawLaws.ScriptWord | gumbo-parser/src/tokenizer.c:1607-1637 | In comment-like script data "<script" and a delimiter, in any case, hide the end tags that follow; any other word does not |
| RawLaws.HiddenEndTag | gumbo-parser/src/tokenizer.c:1640-1762 | While they are hidden an end tag is passed over; that of script, in any case, and no other, shows those that follow |
| RawText.Lexer.Lex | gumbo-parser/src/tokenizer.c:3406-3457 | gumbo_lex in these states ends, and keeps what has been emitted followed by what is pending equal to what has been read |
| RawText.Lexer.EmitFromMark | gumbo-parser/src/tokenizer.c:541-575 | Rewinding to the mark keeps that equation |
| RawText.Lexer.MaybeEmitFromMark | gumbo-parser/src/tokenizer.c:541-560 | One pending character is emitted, or none is left |
| TagAttributes.Collect | gumbo-parser/src/tokenizer.c:791-891 | The attributes of a tag are the first occurrences of distinct names, cut at the limit, each with the value of its first occurrence |
| TagAttributes.TagState.FinishName | gumbo-parser/src/tokenizer.c:791-870 | One more name: added exactly when new and below the limit; the lookup set agrees with the vector whenever there is one |
| TagAttributes.TagState.FinishValue | gumbo-parser/src/tokenizer.c:874-891 | The value goes to the name finished last, unless that was dropped |
| TagAttributes.TagState.Contains | gumbo-parser/src/tokenizer.c:821-834 | List and set give the same answer, so that the threshold of 16 never shows |
| TagAttributes.FirstsNames | gumbo-parser/src/tokenizer.c:791-870 | The first occurrences have distinct names, the same as all |
| CharRefs.ReadText | gumbo-parser/src/tokenizer.c:3042-3314 | Character data, RCDATA and quoted values with all their character references read as a decoder with lookahead reads them |
| References.PrintedReads | gumbo-parser/src/tokenizer.c:3174-3239 | Every number, printed in base ten or sixteen with letters in any case, has the value it was printed from |
| References.ReferenceReads | gumbo-parser/src/tokenizer.c:3115-3314 | Wherever it stands, a numeric reference written for a number, leading zeros and a missing semicolon included, decodes to the character that the number names |
| References.NamesCharacter | gumbo-parser/src/tokenizer.c:3242-3314 | The character named: U+FFFD for zero, surrogates and what is beyond Unicode, the Windows-1252 character for 27 of the C1 controls, otherwise the number itself |
| CharRefs.Accumulate | gumbo-parser/src/tokenizer.c:3174-3239 | The step never leaves 32 bits and stays at the cap once above the largest code point |
| CharRefs.Final | gumbo-parser/src/tokenizer.c:3242-3314 | The result is always a non-zero Unicode scalar value |
| CharRefs.Lexer.Lex | gumbo-parser/src/tokenizer.c:3406-3457 | gumbo_lex in these states ends and stays on course to that reading |
| Escaping.OutputEscaped | ext/nokogiri/xml_node.c:1820-1851 | Copying in stretches is replacing character by character, and leaves no special character |
| Escaping.NothingSpecialLeft | ext/nokogiri/xml_node.c:1820-1851 | For every byte string: no quote is left in a value, no angle bracket in text, and no U+00A0 in either |
| Escaping.TextSurvives | ext/nokogiri/xml_node.c:1820-1851 | Escaped text, tokenised in the data state, is the original text with newlines normalised, as characters only, up to the end |
| Escaping.ValueSurvives | ext/nokogiri/xml_node.c:1820-1851 | An escaped attribute value ends at its own quote and reads as the original, whatever follows |
| Escaping.SurvivesExactly | ext/nokogiri/xml_node.c:1820-1851 | Escaped text is read back as the original if and only if that has no carriage return |
| Escaping.EscapedEncoding | ext/nokogiri/xml_node.c:1820-1851 | Replacing bytes of the encoded string, U+00A0 by its two bytes, is replacing characters |
| Escaping.DecodeEscaped | ext/nokogiri/xml_node.c:1820-1851 | The escaped string decodes to the original anywhere in a longer input |
| Escaping.EscapeNormalised | ext/nokogiri/xml_node.c:1820-1851 | Escaping and newline normalisation commute |
| Tokenizer.Lexer.Tokenize | gumbo-parser/src/tokenizer.c:3406-3457 | Over all 80 states, whatever content state the tree builder sets after start tags, every input is read to its end by finitely many tokens, of which only the last is Eof. In HTML content that stays in the data state they are the tokens that the reader finds, one after the other |
| Tokenizer.Lexer.Lex | gumbo-parser/src/tokenizer.c:3406-3457 | Every call returns a token: Eof only with the cursor at the end of the input, and otherwise one after which strictly less remains by position, rank, buffered code point and pending characters; the assertions of gumbo_lex hold. In the data state the token and its end are those that the reader with lookahead finds at the cursor; what has been held back comes first, one character at a time |
| TokenLaws.TagReads | gumbo-parser/src/tokenizer.c:1077-1179 | "<" or "</", a letter, and what goes up to ">" without a blank or slash: a start or an end tag of that name in small letters, ending behind the ">" |
| TokenLaws.TagCloses | gumbo-parser/src/tokenizer.c:1145-2050 | With attributes, but without quotes and ampersands, the first ">" closes the tag; without one the tag is dropped at the end of the input |
| TokenLaws.QuotedReads | gumbo-parser/src/tokenizer.c:1893-1944 | In a quoted value only the same quote ends the value |
| TokenLaws.CommentReads | gumbo-parser/src/tokenizer.c:2144-2378 | A comment is what stands between "<!--" and the first "-->" or "--!>" after it |
| TokenLaws.OpenComment | gumbo-parser/src/tokenizer.c:2144-2378 | Without either it goes on to the end of the input, but for a "-", "--" or "--!" at the very end |
| TokenLaws.DoctypeReads | gumbo-parser/src/tokenizer.c:2381-2965 | "<!doctype" in any case begins a doctype, which the first ">" ends, quoted or not, or the end of the input |
| TokenLaws.BogusReads | gumbo-parser/src/tokenizer.c:2053-2076 | "<?", and "</" before what is no letter, begin a comment up to the first ">" |
| Tokenizer.Lexer.Dispatch | gumbo-parser/src/tokenizer.c:3323-3404 | Each state function advances, hands on to a state of lower rank, emits, or stands at the end of the input |
| Tokenizer.Lexer.ConsumeMatch | gumbo-parser/src/utf8.c:211-233 | The word is consumed whole exactly when the input goes on with it, in any case of letters if so asked, and not at all otherwise |
| TreeBuilder.Builder.Parse | gumbo-parser/src/parser.c:4761-4881 | For every sequence of tokens, in a document or a fragment, every invariant holds throughout and no template is open at the end |
| TreeBuilder.Builder.ProcessToken | gumbo-parser/src/parser.c:4779-4877 | Reprocessing a token ends in every valid state. Inside a table of a document, outside of templates, the start tag of a part always ends with that part on top of the stack, a cell with its row, section and table below; the end tag of the table closes exactly the innermost table. In the body, in the two select modes and for content tags inside a table, the stack and the mode after every token that is not reprocessed: what is closed first, what is pushed, what an end tag cuts |
| TreeBuilder.Builder.HandleToken | gumbo-parser/src/parser.c:4373-4404 | One step: the invariants, and a lower triple of phase, depth and step if the token is reprocessed; in the body and the select modes, the stack and the mode after the step, and whether the token is reprocessed |
| TreeBuilder.Builder.Reset | gumbo-parser/src/parser.c:724-736 | The search always finds a mode, that of the topmost element that has one, and the mode suits the stack |
| TreeBuilder.Builder.Document | gumbo-parser/src/parser.c:2799-2803 | The state after the body has been opened |
| TreeBuilder.Builder.Fragment | gumbo-parser/src/parser.c:4636-4721 | The state for a fragment; a template context adds a template mode |
| TreeBuilder.Builder.ClearTo | gumbo-parser/src/parser.c:1064-1087 | Clearing stops at the context, which is always there |
| TreeBuilder.Builder.OpenPart | gumbo-parser/src/parser.c:3481-3529 | The stack back to the context, and the part on top |
| TreeBuilder.Builder.ClosePart | gumbo-parser/src/parser.c:3767-3836 | The stack cut at the topmost section or row |
| TreeBuilder.Builder.CloseThrough | gumbo-parser/src/parser.c:1776-1791 | The stack cut at the element, with everything above it |
| TreeBuilder.Builder.CloseCell | gumbo-parser/src/parser.c:1795-1805 | Exactly one of td and th is in table scope, as the assertions say, and it is closed |
| TreeBuilder.Builder.CloseTable | gumbo-parser/src/parser.c:1761-1772 | The stack cut at the innermost table if it is in table scope, and the mode reset |
| TreeBuilder.Builder.CloseSelect | gumbo-parser/src/parser.c:1811-1817 | The stack cut at the select element, and the mode reset |
| TreeBuilder.Builder.CloseTemplate | gumbo-parser/src/parser.c:2669-2673 | The stack cut at the innermost template, its mode dropped, and the mode reset |
| TreeBuilder.Builder.HandleTemplateTag | gumbo-parser/src/parser.c:2652-2675 | The start tag pushes a template and its mode; the end tag cuts the stack at the innermost template, if there is one, and drops its mode |
| TreeBuilder.Builder.GenerateImplied | gumbo-parser/src/parser.c:1706-1734 | Pops exactly while the top has an implied end tag and is not the exception |
| TreeBuilder.Builder.ImplicitlyClose | gumbo-parser/src/parser.c:1861-1879 | The stack cut at the element that is in scope |
| TreeBuilder.Builder.AnyOtherEndTag | gumbo-parser/src/parser.c:2100-2144 | The stack is cut at the topmost such element above every special one, or nothing changes; html is never reached |
| OpenTags.HasInScope | gumbo-parser/src/parser.c:1567-1595 | The walk down the stack decides the three scopes |
| OpenTags.OneCell | gumbo-parser/src/parser.c:1795-1805 | td and th are never both in table scope |
| OpenTags.ChainScoped | gumbo-parser/src/parser.c:4068-4090 | The options on top of the stack belong to a select in select scope |
| InsertionModes.OptionsStand | gumbo-parser/src/parser.c:3961-3987 | On top of every valid stack an option that belongs to a select stands on the select or on a group, and a group on the select |
| OpenTags.TableBelow | gumbo-parser/src/parser.c:1761-1772 | Below the part that accounts for a table mode there is a table in table scope |
| OpenTags.Ancestors | gumbo-parser/src/parser.c:3505-3529 | Outside of templates a cell stands on a row, a section and a table |
| InsertionModes.ResetFits | gumbo-parser/src/parser.c:655-736 | The mode found suits the stack |
| InsertionModes.TemplateFits | gumbo-parser/src/parser.c:4117-4161 | Replacing the mode of the innermost template suits the stack |

## Left out

What the model does not do at all:

* Parse errors, source positions, `original_text`, parse flags, memory release and
  `finish_parsing`. Allocation failures are parameters where the code reports them
  (`hashmap.c`) and do not occur elsewhere, where the code aborts.
* Quirks mode beyond the rule that keeps a paragraph open before a table, framesets,
  forms, lists, headings, ruby and foreign content in the tree builder, and the modes
  before the body. The step that removes `body` without renumbering its siblings
  (`parser.c:2901-2908`) belongs to framesets.
* The hash functions: the hash is an arbitrary function of the key.
* The tag and attribute tables generated by gperf: the tag of a name is an arbitrary
  function in the lexers.
* Ruby bindings, libxml2 and the rest of the serializer.

What is simplified, by member:

- HashMaps.HashMap.Set: `compare` is equality of keys; the overflow of `size_t` when the number of buckets doubles is not modelled; load factors are whole percents.
- HashMaps.HashMap.SetLoadFactor: takes the product of the given factor and 100 as a whole number; what double arithmetic makes of a factor such as 0.57 before that is not modelled.
- HashMaps.HashMap.Run: asks that no set or delete leaves more than 65535 keys, because from there on the claim is false for some hash functions (`HashLimits.LoseKey`).
- Dom.InsertNode: nodes carry a ghost rank that grows from parent to child; it stands for acyclicity and has no counterpart in the code.
- TreeConstruction.Parser.FlushText: the node is always of kind Text; the distinction of whitespace and CDATA is not made.
- TreeConstruction.Parser.GetLocation: asks for html at the bottom of the stack, which holds from the first element on.
- AdoptionRun.Run: under foster parenting asks that from just below an active formatting element of the tag upwards no table or template is open above a table part, which the markers in the list see to; otherwise the place found could lie in the subtree being moved. Each pass keeps this (`Shelter.StillSheltered`).
- TextRuns.RunKeepsText: without foster parenting, which moves text by design; `AdoptionText.TextKept` says for every pass when it does not.
- TreeCopy.BuildTree: `xmlAddChild` is taken as a plain append, which does not merge adjacent text; namespaces of attributes and line numbers are left out, a doctype is created before the loop; the search for a declared namespace looks at the top-level element only.
- RawText.ReadText: code points after newline normalisation; RCDATA is not among its states.
- CharRefs.ReadText: the matcher of names is an arbitrary function with the contract of `char_ref.h:13-23`, on code points; unquoted values are not among its places.
- Escaping.ValueSurvives: asks for a value without NUL, at which the C string would end; the matcher must know the five names that the serializer writes.
- Tokenizer.Lexer.Tokenize: attributes, doctype fields and token positions are not kept; the tree builder's part is an arbitrary choice after each token.
- Tokenizer.Lexer.Lex: which token comes is said for the data state, up to a character reference in text or in a tag and to a CDATA section in foreign content; references are `CharRefs`, the other content states `RawText`.
- TreeBuilder.Builder.HandleToken: stands for the rules of the elements in `OpenTags.Elem`; Div for elements that close a paragraph, Span for ordinary ones, Input for void ones; neither the list of formatting elements nor the text and its foster parenting are part of this model; for the table parts in a fragment or a template, and after the body, the contract gives invariants and progress only.
- TreeBuilder.Builder.Fragment: the context element is not html, whose modes come before the body.
