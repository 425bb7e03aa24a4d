# PloneKeywordManager core, modelled in Dafny

PloneKeywordManager is a Plone add-on for managing the keywords (the
Subject field and other keyword indexes) of a site's content. Its core has
three parts, and this project models each of them.

- **The Levenshtein C library** (`python-Levenshtein`'s `Levenshtein.c`). The keyword tools use it to find similar keywords. The model covers:
  - the edit distance (`lev_edit_distance`, `lev_u_edit_distance`) and `ratio`;
  - searching for a shortest edit script (`lev_editops_find`, `editops_from_cost_matrix`);
  - the two forms of edit script, atomic editops and difflib-like opcodes: their validity checks, inversion and application;
  - the conversions between the two forms, and matching blocks;
  - `make_symlist`, a helper of the median routines.
- **The keyword manager tool** in two versions.
  - The current package (`src/Products/PloneKeywordManager/tool.py`) does these things:
    - merges keywords into one and deletes keywords on every object a catalog search finds, for any keyword index;
    - lists the keyword indexes and the keywords of an index;
    - ranks similar keywords by Levenshtein ratio;
    - guesses a field name from an accessor name (`lstrip("get_")`).
  - The older package (`Products/PloneKeywordManager/tool.py`) works on Subject only. It checks the manage-keywords permission first, and it builds the keyword listing itself.
- **The `importKeywords` setup step** of both packages. It reads `keywords.txt` and stores its non-empty lines as the Subject of a `keywords` document.

Modules and files:

| module | file | contents |
|---|---|---|
| `LevSpec` | `lev_spec.dfy` | The reference definition of the weighted edit distance (a recursive cost table) and its properties. |
| `LevDistance` | `lev_distance.dfy` | The one-row distance algorithms, both the byte and the Unicode codings, and `ratio`. |
| `LevExamples` | `lev_examples.dfy` | The documented examples of `distance` and `ratio`. |
| `EditOps` | `edit_ops.dfy` | Atomic edit operations: the check, inverse and apply. |
| `EditFind` | `edit_find.dfy` | Finding a shortest script from the full cost matrix. |
| `Opcodes` | `opcodes.dfy` | Block operations: the check, inverse and apply. |
| `Convert` | `convert.dfy` | Editops to opcodes, opcodes to editops, and matching blocks. |
| `Symbols` | `symbols.dfy` | `make_symlist`. |
| `Sorting` | `sorting.dfy` | Python's stable sort and string order. |
| `Ranking` | `ranking.dfy` | The sort-by-score and `res[:num]` step of `getScoredMatches`. |
| `KeywordValues` | `keyword_values.dfy` | The rewriting of one keyword field by `change` and `delete`. |
| `KeywordTool` | `keyword_tool.dfy` | The current tool. |
| `LegacyTool` | `legacy_tool.dfy` | The older tool. |
| `SetupHandlers` | `setup.dfy` | `importKeywords`. |
| `Wrappers` | `wrappers.dfy` | `Option`, for a context, a data file or a value that may be missing. |

Three kinds of C code get three kinds of model:

- C code that updates a buffer in place is a method over an `array`. This covers the row of costs, the cost matrix, the symbol table, inversion in place, and the output buffers of apply.
- C code that computes a value is a function.
- The catalog, the security machinery and the file system become parameters:
  - the catalog search is a function from a query to a list of objects;
  - the permission check is a predicate on the object checked;
  - the data file's content is an `Option<string>`.

## Model

Source paths are relative to the root of the repository.

| member | source | states |
|---|---|---|
| LevSpec.DistanceSymmetric | Products/PloneKeywordManager/python-Levenshtein/Levenshtein.c:1746-1754 | The distance does not depend on the order of the strings. This is what justifies the swap that puts the shorter string first. |
| LevSpec.DistanceBounds | Products/PloneKeywordManager/python-Levenshtein/Levenshtein.c:1740-1744 | The distance lies between the difference of the lengths and their sum. For an empty string it is the other string's length. |
| LevSpec.DistanceZeroIff | Products/PloneKeywordManager/python-Levenshtein/Levenshtein.c:1712-1715 | With a positive replace cost, the distance is 0 if and only if the strings are equal. |
| LevSpec.DistanceDisjointIff | Products/PloneKeywordManager/python-Levenshtein/Levenshtein.c:1712-1715 | With replace cost 2, the distance is the sum of the lengths if and only if no element of one string occurs in the other. |
| LevSpec.DistanceDropPrefix | Products/PloneKeywordManager/python-Levenshtein/Levenshtein.c:1726-1732 | Stripping a common prefix leaves the distance unchanged. |
| LevSpec.DistanceDropSuffix | Products/PloneKeywordManager/python-Levenshtein/Levenshtein.c:1734-1738 | Stripping a common suffix leaves the distance unchanged. |
| LevSpec.CostSingle | Products/PloneKeywordManager/python-Levenshtein/Levenshtein.c:1755-1761 | For a one-element string1, the cost up to column j is j-1 if string1's element occurs in string2's first j elements, and j-1+replace cost otherwise. This is the `memchr` shortcut. |
| LevDistance.EditDistance | Products/PloneKeywordManager/python-Levenshtein/Levenshtein.c:1712-2008 | `lev_edit_distance` (strip, trivial cases, swap, shortcut, row loop) returns exactly the reference distance for the replace cost that xcost selects: 1 when xcost is 0, and 2 otherwise. `lev_u_edit_distance` is the same algorithm over wide characters. |
| LevDistance.StrippedDistance | Products/PloneKeywordManager/python-Levenshtein/Levenshtein.c:1740-1857 | After the common prefix and suffix are stripped, the trivial cases, the swap, the `memchr` shortcut and the two row loops return exactly the reference distance of what remains. |
| LevDistance.UnicodeSingle | Products/PloneKeywordManager/python-Levenshtein/Levenshtein.c:1903-1915 | The Unicode one-element shortcut, which scans for the element, returns the reference distance. |
| LevDistance.SubstTwoRows | Products/PloneKeywordManager/python-Levenshtein/Levenshtein.c:1777-1796 | The single-row loop for a nonzero xcost ends with the cost of the full strings at replace cost 2. |
| LevDistance.UnicodeSubstTwoRows | Products/PloneKeywordManager/python-Levenshtein/Levenshtein.c:1928-1946 | The Unicode coding of that loop computes the same cost. |
| LevDistance.BandedRows | Products/PloneKeywordManager/python-Levenshtein/Levenshtein.c:1797-1852 | The banded loop for xcost 0 skips the two corner triangles and still ends with the exact unit-cost distance. |
| LevDistance.Ratio | Products/PloneKeywordManager/python-Levenshtein/Levenshtein.c:564-577 | `ratio` is (lensum - distance) / lensum at replace cost 2, and 1.0 when both strings are empty. |
| LevDistance.SimilarityBounds | Products/PloneKeywordManager/python-Levenshtein/Levenshtein.c:162-163 | The ratio lies between 0 and 1. |
| LevDistance.SimilarityOneIff | Products/PloneKeywordManager/python-Levenshtein/Levenshtein.c:564-577 | The ratio is 1 if and only if the strings are equal. |
| LevDistance.SimilarityZeroIff | Products/PloneKeywordManager/python-Levenshtein/Levenshtein.c:564-577 | The ratio is 0 if and only if the strings are not both empty and share no element. |
| LevDistance.SimilaritySymmetric | Products/PloneKeywordManager/python-Levenshtein/Levenshtein.c:564-577 | The ratio does not depend on the order of the strings. |
| LevExamples.LevenshteinLenvinsten | Products/PloneKeywordManager/python-Levenshtein/Levenshtein.c:147-148 | distance('Levenshtein', 'Lenvinsten') is 4. |
| LevExamples.LevenshteinLevensthein | Products/PloneKeywordManager/python-Levenshtein/Levenshtein.c:149-150 | distance('Levenshtein', 'Levensthein') is 2. |
| LevExamples.LevenshteinLevenshten | Products/PloneKeywordManager/python-Levenshtein/Levenshtein.c:151-152 | distance('Levenshtein', 'Levenshten') is 1. |
| LevExamples.LevenshteinItself | Products/PloneKeywordManager/python-Levenshtein/Levenshtein.c:153-154 | distance('Levenshtein', 'Levenshtein') is 0. |
| LevExamples.BrianJesusRatio | Products/PloneKeywordManager/python-Levenshtein/Levenshtein.c:170-171 | ratio('Brian', 'Jesus') is 0.0. |
| Symbols.MarkSymbols | Products/PloneKeywordManager/python-Levenshtein/Levenshtein.c:2031-2040 | Marking one string's bytes in the 256-entry table: the table afterwards marks exactly the old marks plus that string's bytes, and the counter equals the number of marks. |
| Symbols.ListMarked | Products/PloneKeywordManager/python-Levenshtein/Levenshtein.c:2046-2061 | Reading the table in order yields the marked bytes, strictly increasing, exactly as many as counted. |
| Symbols.MakeSymlist | Products/PloneKeywordManager/python-Levenshtein/Levenshtein.c:2018-2066 | `make_symlist` lists, in strictly increasing order, exactly the bytes that occur in some string. |
| EditOps.CheckEditops | Products/PloneKeywordManager/python-Levenshtein/Levenshtein.c:3912-3943 | The check returns the error that the bounds loop and then the order loop find first. |
| EditOps.EditopsOkIff | Products/PloneKeywordManager/python-Levenshtein/Levenshtein.c:3912-3943 | The check passes if and only if every operation is valid (a known kind, inside the strings, insert only at the source end, delete only at the destination end) and both positions never decrease. |
| EditOps.InverseEditops | Products/PloneKeywordManager/python-Levenshtein/Levenshtein.c:4006-4020 | Inversion in place swaps the two positions of every operation and swaps insert with delete. |
| EditOps.InvertOpsInvolution | Products/PloneKeywordManager/python-Levenshtein/Levenshtein.c:4006-4020 | Inverting twice gives back the original operations. |
| EditOps.InvertOpsValid | Products/PloneKeywordManager/python-Levenshtein/Levenshtein.c:4006-4020 | The inverse passes the check with the lengths swapped if and only if the operations pass it. |
| EditFind.SpamParkEditops | Products/PloneKeywordManager/python-Levenshtein/Levenshtein.c:303-310 | The script `lev_editops_find` computes for 'spam' and 'park' is exactly [delete 0 0, insert 3 2, replace 3 3]. |
| EditFind.ParkSpamEditops | Products/PloneKeywordManager/python-Levenshtein/Levenshtein.c:325-328 | The script `lev_editops_find` computes for 'park' and 'spam' is exactly [insert 0 0, delete 2 3, replace 3 3]. |
| EditFind.InverseSpamPark | Products/PloneKeywordManager/python-Levenshtein/Levenshtein.c:325-328 | The inverse of editops('spam', 'park') equals editops('park', 'spam'), both as `lev_editops_find` computes them. |
| EditOps.ApplyEditops | Products/PloneKeywordManager/python-Levenshtein/Levenshtein.c:4027-4079 | `lev_editops_apply` on any applicable subsequence builds exactly the specified output. That output is the copied gaps, the pieces the operations produce, and the source tail. It fits the `n + len1` buffer. |
| EditOps.UnicodeApplyEditops | Products/PloneKeywordManager/python-Levenshtein/Levenshtein.c:4086-4134 | `lev_u_editops_apply` as written returns the specified output minus the source tail after the last operation. |
| EditOps.UnicodeApplyDropsTail | Products/PloneKeywordManager/python-Levenshtein/Levenshtein.c:4128-4132 | Replacing the first letter of "abc" with the first letter of "xbc" yields "x" there, not "xbc". |
| EditOps.CheckAcceptsRepeatedDelete | Products/PloneKeywordManager/python-Levenshtein/Levenshtein.c:3936-3940 | The check accepts two deletes at the same position, and that list is not applicable. |
| EditOps.CheckEditopsStrict | Products/PloneKeywordManager/python-Levenshtein/Levenshtein.c:3912-3943 | The corrected check also requires every operation to start at or after where the previous one left the source. Whatever it accepts is applicable. |
| EditOps.StrictCheckApplicable | Products/PloneKeywordManager/python-Levenshtein/Levenshtein.c:3912-3943 | The corrected check implies the original check and applicability. |
| EditOps.ApplyEdit | Products/PloneKeywordManager/python-Levenshtein/Levenshtein.c:1511-1526 | The corrected `apply_edit` with editops checks first, with the strict check of Findings row (b) in place of `lev_editops_check_errors`. On success it returns the specified output, and otherwise it returns the error and nothing else. |
| EditOps.AlignsChecked | Products/PloneKeywordManager/python-Levenshtein/Levenshtein.c:330-338 | A script that edits string1 into string2 passes both checks, and applying it yields string2. |
| EditOps.InverseUndoes | Products/PloneKeywordManager/python-Levenshtein/Levenshtein.c:315-321 | The inverse of a script from string1 to string2, applied to string2, yields string1. |
| EditFind.FillMatrix | Products/PloneKeywordManager/python-Levenshtein/Levenshtein.c:4261-4289 | The filled matrix holds exactly the unit-cost distances between all prefixes. |
| EditFind.Backtrack | Products/PloneKeywordManager/python-Levenshtein/Levenshtein.c:4140-4226 | The walk back from the last cell writes exactly the script `WalkOps` defines: at each cell it continues an insert or delete run, then keeps, replaces, or starts an insert or delete run, in that order of preference. The script has exactly distance many operations, none of them keep, and edits the stripped core and so the whole strings. |
| EditFind.StripCommon | Products/PloneKeywordManager/python-Levenshtein/Levenshtein.c:4240-4255 | The common prefix and suffix are stripped as far as they go: the result is exactly `Strip`, the longest common prefix and then the longest common suffix of the rest. |
| EditFind.StrippedCore | Products/PloneKeywordManager/python-Levenshtein/Levenshtein.c:4240-4255 | Stripping them leaves the distance unchanged. |
| EditFind.EditopsFind | Products/PloneKeywordManager/python-Levenshtein/Levenshtein.c:4231-4296 | `lev_editops_find` returns exactly `FoundOps`: the walk in the C's order of preference over the stripped core, shifted by the prefix. The script has exactly distance(string1, string2) operations, none of them keep. It passes the check, and applying it yields string2. |
| Opcodes.DiffFacts | Products/PloneKeywordManager/python-Levenshtein/Levenshtein.c:3966-3985 | The `size_t` difference of two positions is 0 exactly when they are equal. It wraps modulo 2^64 when the second is larger. |
| Opcodes.CheckOpcodes | Products/PloneKeywordManager/python-Levenshtein/Levenshtein.c:3948-3999 | The check returns 1 for an empty list. Otherwise it returns the error that the span, block-shape and order checks find first, with block sizes computed on `size_t`. |
| Opcodes.CheckAcceptsBackwardBlock | Products/PloneKeywordManager/python-Levenshtein/Levenshtein.c:3969-3972 | The check accepts a keep block running from 2 back to 1, whose wrapped size is 2^64-1. |
| Opcodes.CheckOpcodesStrict | Products/PloneKeywordManager/python-Levenshtein/Levenshtein.c:3948-3999 | The corrected check also requires every block to run forwards. |
| Opcodes.StrictOpcodesOkIff | Products/PloneKeywordManager/python-Levenshtein/Levenshtein.c:3948-3999 | The corrected check passes if and only if the blocks are well-shaped and contiguous and tile both strings from start to end. |
| Opcodes.InverseOpcodes | Products/PloneKeywordManager/python-Levenshtein/Levenshtein.c:4789-4807 | Inversion in place swaps the source and destination ranges of every block and swaps insert with delete. |
| Opcodes.InvertCodesInvolution | Products/PloneKeywordManager/python-Levenshtein/Levenshtein.c:4789-4807 | Inverting twice gives back the original blocks. |
| Opcodes.InvertCodesWellFormed | Products/PloneKeywordManager/python-Levenshtein/Levenshtein.c:4789-4807 | The inverse tiles the swapped strings if and only if the blocks tile the strings. |
| Opcodes.ApplyOpcodes | Products/PloneKeywordManager/python-Levenshtein/Levenshtein.c:4693-4734 | `lev_opcodes_apply` on a well-formed list writes, block by block, the destination range or the kept source range. |
| Opcodes.OutputIsDestination | Products/PloneKeywordManager/python-Levenshtein/Levenshtein.c:4693-4734 | When the keep blocks really match, the output is string2. |
| Opcodes.InverseOutput | Products/PloneKeywordManager/python-Levenshtein/Levenshtein.c:352-355 | Applying the inverse blocks to string2 yields string1. |
| Convert.EditopsToOpcodes | Products/PloneKeywordManager/python-Levenshtein/Levenshtein.c:4553-4687 | The grouping loop returns exactly the scan's blocks: skipped stretches as keep blocks, runs of one kind as one block, and a final keep block. |
| Convert.BlocksOfAligned | Products/PloneKeywordManager/python-Levenshtein/Levenshtein.c:4553-4687 | For a script from string1 to string2, the blocks are empty if and only if both strings are. Otherwise they are well-formed, their keep blocks match, and applying them yields string2. |
| Convert.OpcodesRoundTrip | Products/PloneKeywordManager/python-Levenshtein/Levenshtein.c:4464-4547 | Converting a keep-free script to blocks and back (without keeps) gives back the script. |
| Convert.OpcodesToEditops | Products/PloneKeywordManager/python-Levenshtein/Levenshtein.c:4464-4547 | `lev_opcodes_to_editops` expands every block into its atomic operations, with keep blocks expanded only when keepkeep is set. |
| Convert.EditopsOfWellFormed | Products/PloneKeywordManager/python-Levenshtein/Levenshtein.c:4464-4547 | The expansion of a well-formed block list edits string1 into string2. It passes the corrected editops check and applies to string2. |
| Convert.CoversIff | Products/PloneKeywordManager/python-Levenshtein/Levenshtein.c:3948-3999 | A non-empty block list covers the two strings step by step if and only if it is well-formed with matching keep blocks. |
| Convert.EditopsMatchingBlocks | Products/PloneKeywordManager/python-Levenshtein/Levenshtein.c:4813-4939 | `lev_editops_matching_blocks` returns exactly the keep blocks of the conversion to opcodes, as (spos, dpos, len). |
| Convert.MatchingOfAligned | Products/PloneKeywordManager/python-Levenshtein/Levenshtein.c:4813-4939 | For a script from string1 to string2, every matching block lies inside both strings, and the two ranges it names are equal. |
| Convert.SpamParkOpcodes | Products/PloneKeywordManager/python-Levenshtein/Levenshtein.c:303-310 | The opcodes of the script `lev_editops_find` computes for 'spam' and 'park' are delete 0 1 0 0, equal 1 3 0 2, insert 3 3 2 3 and replace 3 4 3 4. |
| Convert.SpamParkMatching | Products/PloneKeywordManager/python-Levenshtein/Levenshtein.c:371-373 | The matching blocks of the script `lev_editops_find` computes for 'spam' and 'park' are [(1, 0, 2)] before the terminator. |
| Sorting.StringsStrictOrder | src/Products/PloneKeywordManager/tool.py:155 | Python's string `<` is a strict total order: irreflexive, transitive and total. |
| Sorting.SortByCorrect | src/Products/PloneKeywordManager/tool.py:155 | Python's stable sort returns a permutation that is sorted by key, and it keeps the input order of the elements with equal keys. |
| Sorting.SortIncreasing | Products/PloneKeywordManager/tool.py:124-125 | Sorting distinct strings yields a strictly increasing list. |
| Sorting.IncreasingUnique | Products/PloneKeywordManager/tool.py:124-125 | Two strictly increasing lists with the same members are equal. |
| Ranking.RankedFacts | src/Products/PloneKeywordManager/tool.py:214-218 | The ranked answer holds the first `num` candidates of a stable sort by descending score. A negative `num` cuts from the end, as `res[:num]` does. Every candidate kept scores at least as high as every candidate cut off. |
| KeywordValues.ReplaceKeywords | src/Products/PloneKeywordManager/tool.py:85-88 | The merge loop overwrites every occurrence of every old keyword with the new keyword. |
| KeywordValues.FirstIndex | src/Products/PloneKeywordManager/tool.py:88 | `list.index` returns the first position of the element. |
| KeywordValues.RemoveKeywords | src/Products/PloneKeywordManager/tool.py:119-122 | The delete loop leaves the list without any of the keywords, other elements in order. |
| KeywordValues.RemoveFirst | src/Products/PloneKeywordManager/tool.py:122 | `list.remove` drops the first occurrence of the element, and the rest keep their order: the result is the list before that occurrence followed by the list after it. |
| KeywordValues.Dedupe | src/Products/PloneKeywordManager/tool.py:91 | `list(set(value))` holds each element of the value once. |
| KeywordValues.ChangedValue | src/Products/PloneKeywordManager/tool.py:82-97 | `change` on a list overwrites and dedupes. On a set it swaps the old keywords for the new one. Anything else becomes the new keyword. |
| KeywordValues.DeletedValue | src/Products/PloneKeywordManager/tool.py:116-127 | `delete` removes the keywords from a list or a set. Anything else becomes None. |
| KeywordValues.ChangeList | src/Products/PloneKeywordManager/tool.py:83-91 | A merged list is duplicate-free. It holds the elements that were not old keywords. It holds the new keyword if and only if some element was an old keyword or the new keyword was already there. |
| KeywordValues.ChangeSet | src/Products/PloneKeywordManager/tool.py:92-94 | A merged set holds the new keyword and the members that were not old keywords, and nothing else. |
| KeywordValues.ChangeIdempotent | src/Products/PloneKeywordManager/tool.py:82-97 | Merging the same keywords twice is the same as merging once. For list values this equality holds for the model's fixed order of `list(set(...))`; in Python the order may differ between the two calls, so there it holds up to order. |
| KeywordValues.DeleteList | src/Products/PloneKeywordManager/tool.py:117-122 | After deleting, no keyword is left in the list, and every other element keeps its number of occurrences. |
| KeywordValues.DeleteIdempotent | src/Products/PloneKeywordManager/tool.py:116-127 | Deleting the same keywords twice is the same as deleting once. |
| KeywordTool.FullIndexList | src/Products/PloneKeywordManager/tool.py:49-51 | The indexes to reindex are the index itself and those always reindexed, each once. |
| KeywordTool.KeywordIndexesFacts | src/Products/PloneKeywordManager/tool.py:220-233 | The keyword indexes are sorted. They are exactly the ids of the catalog's indexes that have the keyword meta type and are not ignored, each as often as it occurs. |
| KeywordTool.GetKeywordsFacts | src/Products/PloneKeywordManager/tool.py:140-155 | `getKeywords` raises ValueError if and only if the index is not a keyword index. Otherwise the result is the index's unique values other than None, sorted case-insensitively and stably. |
| KeywordTool.LstripGet | src/Products/PloneKeywordManager/tool.py:268 | `lstrip("get_")` removes the longest prefix made only of the characters g, e, t and _. |
| KeywordTool.FieldNameOfAccessor | src/Products/PloneKeywordManager/tool.py:266-270 | For "get" followed by stripped characters and then a first kept character d, both the Dexterity and the Archetypes heuristic give d in lower case followed by the rest. |
| KeywordTool.FieldNameOfStrippedOnly | src/Products/PloneKeywordManager/tool.py:283-285 | A name made only of stripped characters leaves nothing, and `fieldName[0]` fails: no field name. |
| KeywordTool.RatioOf | src/Products/PloneKeywordManager/tool.py:206-208 | Comparing two texts of one type computes the Levenshtein ratio of their contents. |
| KeywordTool.GetScoredMatches | src/Products/PloneKeywordManager/tool.py:185-218 | `getScoredMatches` raises ValueError if and only if some possibility is neither text nor bytes. Otherwise it returns the ranked candidates above the score, each compared with the word or with its other encoding. |
| KeywordTool.RewrittenEffect | src/Products/PloneKeywordManager/tool.py:78-99 | After the loop, each field of the index on a found object with a setter is rewritten, and every other field is as before. |
| KeywordTool.KeywordManager.UpdateObject | src/Products/PloneKeywordManager/tool.py:133-138 | With a setter, the field gets the value and the object is reindexed on the full index list. Without one, nothing changes. |
| KeywordTool.KeywordManager.RewriteAll | src/Products/PloneKeywordManager/tool.py:78-101 | The loop over the query set rewrites the fields, appends the reindex requests, and returns the size of the query set. |
| KeywordTool.KeywordManager.Change | src/Products/PloneKeywordManager/tool.py:53-101 | `change` merges the old keywords into the new one on every found object, and returns how many were found. The query is restricted to the context's path joined with "/" exactly when a context is given (lines 64-66). |
| KeywordTool.KeywordManager.Delete | src/Products/PloneKeywordManager/tool.py:103-131 | `delete` removes the keywords from every found object, and returns how many were found. The query is restricted to the context's path exactly when a context is given (lines 109-111). |
| LegacyTool.RelistingFacts | Products/PloneKeywordManager/tool.py:75-83 | A merged Subject list is duplicate-free with the merged members. A deleted one keeps no keyword and every other element's count. |
| LegacyTool.RelistingIdempotent | Products/PloneKeywordManager/tool.py:73-109 | Merging or deleting twice is the same as doing it once. For list values this equality holds for the model's fixed order of `list(set(...))`; in Python it holds up to order. |
| LegacyTool.Relist | Products/PloneKeywordManager/tool.py:75-82 | The per-object loops of `change` and `delete` compute the rewritten Subject list. |
| LegacyTool.RelistedEffect | Products/PloneKeywordManager/tool.py:73-84 | After the loop, each found object's Subject is rewritten, and every other object's is as before. |
| LegacyTool.SubjectReindexesFacts | Products/PloneKeywordManager/tool.py:84 | One reindex request per found object, on the Subject index only. |
| LegacyTool.AddKeywords | Products/PloneKeywordManager/tool.py:121-122 | Adding one object's subjects to the dictionary keeps it equal to the keywords seen so far, each once. |
| LegacyTool.CollectKeywords | Products/PloneKeywordManager/tool.py:119-124 | The collected keys are exactly the keywords of the found objects, each once. |
| LegacyTool.ScoredAboveMembers | Products/PloneKeywordManager/tool.py:143-146 | When the word and every possibility are texts of one type, the candidates kept are exactly the possibilities whose ratio to the word exceeds the score, each with that ratio. |
| LegacyTool.KeywordListingUnique | Products/PloneKeywordManager/tool.py:124-125 | The sorted listing is determined by its members: the order in which the dictionary yields its keys does not matter. |
| LegacyTool.LegacyKeywordManager.RelistAll | Products/PloneKeywordManager/tool.py:73-86 | The loop rewrites every found object's Subject, reindexes Subject, and returns the size of the query set. |
| LegacyTool.LegacyKeywordManager.Change | Products/PloneKeywordManager/tool.py:58-86 | `_checkPermission` (lines 158-162) checks the permission on the context when one is given and on the tool otherwise. Without the permission, `change` raises Unauthorized and changes nothing. With it, `change` merges on every found object and returns how many were found. The query has a path exactly when a context is given: the context's path joined with "/" (lines 68-70). |
| LegacyTool.LegacyKeywordManager.Delete | Products/PloneKeywordManager/tool.py:88-110 | `_checkPermission` (lines 158-162) checks the permission on the context when one is given and on the tool otherwise. Without the permission, `delete` raises Unauthorized and changes nothing. With it, `delete` removes the keywords from every found object and returns how many were found. |
| LegacyTool.LegacyKeywordManager.GetKeywords | Products/PloneKeywordManager/tool.py:112-126 | `_checkPermission` (lines 158-162) checks the permission on the context when one is given and on the tool otherwise. `getKeywords` raises Unauthorized if and only if the permission is missing. Otherwise it returns, strictly increasing, exactly the keywords of the objects under the context. |
| LegacyTool.LegacyKeywordManager.GetScoredMatches | Products/PloneKeywordManager/tool.py:128-152 | `getScoredMatches` raises Unauthorized if and only if the permission is missing. It falls back to difflib if and only if `usingLevenshtein` (lines 51-56) is false, that is, the Levenshtein module could not be imported. Otherwise it raises ValueError if and only if some possibility is not a text of the word's type: `Levenshtein.ratio` (Levenshtein.c lines 509-548) takes only two `str` or two `unicode`, and this tool passes the word as it is. Otherwise it returns the ranked candidates above the score. |
| SetupHandlers.Split | src/Products/PloneKeywordManager/setuphandlers.py:13 | `split("\n")` yields at least one piece, and no piece holds a line break. |
| SetupHandlers.SplitJoin | src/Products/PloneKeywordManager/setuphandlers.py:13 | Joining the pieces with line breaks gives back the text. |
| SetupHandlers.JoinSplit | src/Products/PloneKeywordManager/setuphandlers.py:13 | Splitting lines that were joined gives back the lines. |
| SetupHandlers.NonEmptyMembers | src/Products/PloneKeywordManager/setuphandlers.py:13 | The keywords are exactly the non-empty lines. |
| SetupHandlers.ParseJoined | Products/PloneKeywordManager/setuphandlers.py:10 | A file of non-empty keywords, one per line, parses back to those keywords in order. |
| SetupHandlers.ParseEmpty | src/Products/PloneKeywordManager/setuphandlers.py:13-15 | The parse is empty, and the step does nothing, if and only if the file holds only line breaks. |
| SetupHandlers.Site.InvokeFactory | Products/PloneKeywordManager/setuphandlers.py:18-20 | `invokeFactory` adds a new, fresh document with the title under an unused id. |
| SetupHandlers.ImportKeywords | src/Products/PloneKeywordManager/setuphandlers.py:6-31 | With no file or no keywords, the site is unchanged. Otherwise the `keywords` document exists, either reused or new and titled "Keywords". It gets exactly the keywords as Subject, is hidden from the navigation, reindexed and unmarked, and nothing else changes. The older step (Products/PloneKeywordManager/setuphandlers.py) is the same, except for how the document is hidden. |

## Left out

- The Python–C glue of Levenshtein.c: argument parsing, tuple-list conversion, and the median, set-distance and sequence routines. The Unicode `editops_find` is the same algorithm as the byte one, and so is covered by the generic model.
- Allocation failures (`malloc` returning NULL, and the `(size_t)(-1)` results): the model allocates without failure.
- The counting pre-passes that size the output buffers of `lev_editops_to_opcodes`, `lev_opcodes_to_editops` and `lev_editops_matching_blocks`: the model grows a sequence instead of filling a sized buffer.
- Convert.EditopsMatchingBlocks: the `(len1, len2, 0)` terminator of `matching_blocks` is added by the Python glue, not by `lev_editops_matching_blocks`, and is not modelled.
- Convert.EditopsToOpcodes: requires every operation to have one of the four kinds (`KindsValid`). The C scan does not terminate sensibly on other numbers, and the Python wrapper checks the list before converting.
- Convert.EditopsToOpcodes: the debug `assert` on the final keep block is modelled as in a release build, where the block is emitted regardless. For scripts that edit string1 into string2, `BlocksOfAligned` proves the assertion holds.
- Convert.OpcodesToEditops: requires `Shaped` blocks. The backward blocks that `lev_opcodes_check_errors` lets through would make the expansion loop (Levenshtein.c lines 4515-4535) write past its buffer, which cannot be modelled as values.
- EditOps.ApplyEditops: requires an applicable list. The overlapping operations that `lev_editops_check_errors` lets through make the C copy length wrap (Levenshtein.c lines 4027-4079), which cannot be modelled as values.
- Opcodes.ApplyOpcodes: requires a well-formed block list. The backward blocks that the C check lets through would make `memcpy` run past the buffers, which cannot be modelled as values.
- LevDistance.Ratio: returns an exact `real`, where C computes a `double`. Rounding is not modelled.
- LevDistance.EditDistance: lengths and costs are unbounded. The `size_t` arithmetic cannot overflow for strings that fit in memory.
- KeywordValues.Dedupe: keeps first occurrences. Python's `list(set(...))` leaves the order open, so a model that fixes one order claims more than the source promises.
- Sorting.LowerChar: lower-cases ASCII letters only. Unicode case mapping is not modelled.
- KeywordTool.GetScoredMatches: the other encoding of the word (`word.encode("utf-8")` or `str(word, encoding="utf-8")`) is a parameter. UTF-8 coding is not modelled.
- The catalog (`api.content.find`, `uniqueValuesFor`, `index_objects`), the security manager and `readDataFile` are parameters.
- The setter lookup (`getSetter`) is the set `writable` of fields that have a setter. `fieldNameForIndex` and its ValueError, and which of the Dexterity, comment and Archetypes branches applies, are not modelled. The `lstrip` heuristic is modelled on its own.
- `getFieldValue`'s fallback from `getX` to `x` is not modelled: the model reads the field value directly.
- The difflib fallback of `getScoredMatches` (`difflib.get_close_matches`) is an outcome (`Difflib`, or the tool returning without Levenshtein), not a computation.
- `processQueue()`, `to_str`, and the UnicodeDecodeError retry of `change` concern indexing queues and text coding, and are not modelled.
- `getKeywordLength` and `getKeywordsWithLengths` read index internals, and are not modelled.
- The browser views, skins, installers and upgrade steps are not part of this model.
- SetupHandlers.ImportKeywords: setting `exclude_from_nav` on Dexterity content and calling `setExcludeFromNav(True)` otherwise are collapsed into one flag on the document.

## Findings

| source | as written | input that shows it | evidently intended | confidence | as-written member | corrected member |
|---|---|---|---|---|---|---|
| Products/PloneKeywordManager/python-Levenshtein/Levenshtein.c:4128-4132 | `lev_u_editops_apply` never copies the rest of the source after the last operation. The byte version does, at lines 4069-4074. | Replacing position 0 of "abc" with position 0 of "xbc" yields "x" | "xbc", as `lev_editops_apply` returns | not executed | EditOps.UnicodeApplyEditops, EditOps.UnicodeApplyDropsTail | EditOps.ApplyEditops |
| Products/PloneKeywordManager/python-Levenshtein/Levenshtein.c:3936-3940 | The editops check only requires positions not to decrease, so it accepts two deletes of the same element. `lev_editops_apply` then computes a copy length of `0 - 1`. | len1 = 1, len2 = 0, [delete 0 0, delete 0 0] | The check rejects operations that start before the previous one ended, and whatever it accepts is applicable | not executed | EditOps.CheckAcceptsRepeatedDelete | EditOps.CheckEditopsStrict, EditOps.ApplyEdit |
| Products/PloneKeywordManager/python-Levenshtein/Levenshtein.c:3969-3985 | The opcodes check compares block sizes as `size_t` differences, so a block running backwards passes. Its size wraps to 2^64-1 in both strings. | len1 = len2 = 3, [equal 0 2 0 2, equal 2 1 2 1, equal 1 3 1 3] | The check rejects blocks with end before begin, and then passes exactly the block lists that tile both strings | not executed | Opcodes.CheckAcceptsBackwardBlock | Opcodes.CheckOpcodesStrict, Opcodes.StrictOpcodesOkIff |
