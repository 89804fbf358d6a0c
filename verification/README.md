# Rview: verified models

Rview is a read-only web interface over rclone. This project models its search engine, its directory listings and their
cache, its thumbnail service and the eviction of cached files, and proves properties of these models with Dafny 4.11
(`dafny verify dfyconfig.toml`).

| files | what they model |
|---|---|
| `Order`, `Text`, `Wrappers` | comparators, sorting, lexicographic order; text as sequences of runes, with the Unicode tables as parameters |
| `Words`, `Query`, `Scoring`, `Compaction`, `PrefixIndex`, `AllFiles` | the prefix search engine: splitting paths into words, the query language, the inverted index, scores, merging of subtrees, ranking; the listing that an index is built from |
| `SearchRefresh`, `RefreshProtocol` | the search service: start, refresh, save, load and search in sequence; and concurrent refreshes with failures and restarts |
| `NaturalOrder`, `Entries`, `DirCache`, `ListingProtocol` | natural order of names, directory listings, their TTL cache on the heap; and concurrent calls for listings |
| `ThumbnailNames`, `ThumbnailProtocol`, `ThumbnailSafety`, `ThumbnailShutdown`, `ThumbnailRuns`, `ThumbnailRequests` | thumbnail ids; the protocol of callers, queue, workers, locks, caches and eviction; its invariants; when shutting down panics; runs on which promises fail; names and protocol together |
| `Cleaner`, `DiskCache` | eviction of the oldest files; the file cache below the thumbnails |

Code that changes state step by step is a class or a method with loops, proved against a specification function; code
that runs concurrently is a state machine with one step for each section under a lock, channel operation and cache
operation, and its theorems hold in every state that any run reaches.

Where the code does not keep what its documentation or a reader expects, the code is modelled as it is, a lemma gives
the input or the run, and another one says exactly when the expectation holds:

- "Only the first call to OpenThumbnail generates a thumbnail" (`thumbnails/service.go:587`) fails in
  `ThumbnailRuns.SecondCallGenerates`; without evictions and failures the number of tasks is one more than the number of
  calls that looked into the cache before the thumbnail was there, or could not open it
  (`ThumbnailSafety.OnlyStaleLooksGenerateAgain`).
- `Shutdown` can make a call panic (`ThumbnailRuns.ShutdownPanics`); closing the channel is safe exactly if no call is
  between its check of `stopped` and its send (`ThumbnailShutdown.CloseIsSafeIff`).
- A call can be handed an incomplete file: one that is being written (`ThumbnailRuns.EarlyOpenSeesPartial`), or a short
  copy of an original, which stays in the cache (`ThumbnailRuns.ShortCopyStays`). A file in the cache is incomplete
  exactly if a worker is writing it, or its last write was a copy that ended short, a resize whose file could not be
  removed, or cut off by a restart (`ThumbnailSafety.PartialExactly`, `CallersSeePartialExactly`, `AtRest`).
- Also a complete file can be truncated under a call that has it open (`ThumbnailRuns.ReaderIsTruncated`), but only if
  the thumbnail was marked again while it was there, by a call that had looked into the cache before or could not open
  it (`ThumbnailSafety.TornOnlyByRepeatedMarks`).
- An original can stay in the cache incompletely written (`ThumbnailRuns.BrokenOriginalStays`), and a thumbnail of a RAW
  image be made from it (`ThumbnailRuns.BrokenOriginalIsUsed`). Outside the section of openImage an original is
  incomplete exactly if its last write failed together with the clean-up, or was cut off by a restart
  (`ThumbnailSafety.OneDownload`), and only RAW images, whose size is not checked, get thumbnails made from incomplete
  originals (`PartialExactly`, `ThumbnailRequests.ThumbnailIsOfItsFile`).
- `compareStrings` is used to sort but is no weak order on all names (`NaturalOrder.LeadingZeroCycle`). It is one on the
  orderly names, those whose runs of digits have no redundant zero and fit an `int`, and those whose last run has as
  many digits as the greatest `int` but a greater value, with nothing but greatest characters after it; and adding any
  other name to the canonical ones makes it none (`NaturalOrder.WeakOnOrderly`, `WeakOrderIff`). It is also one on any
  names in which numbers of one value are padded in the same way (`WeakOnAlike`), and for any two names the first number
  or character in which they differ decides (`FirstDifferenceDecides`, `NumbersDecide`).
- Saving the index before publishing it does not keep disk and memory equal: two refreshes can publish in the opposite
  order, and a failed save truncates the file (`RefreshProtocol.PublishedInOppositeOrder`, `FailedSaveTruncates`).
  Refreshes in flight that do not fail end with disk and memory equal, in whatever order they end, exactly if they agree
  on one index and none writes beside another (`SettlesInStepIff`); between serialised refreshes disk and memory are
  equal exactly if the last save did not fail (`SerialInStepIff`).
- Nor was a published index always in the file first (`RefreshProtocol.PublishedNeverHeld`). It was in every run in which
  calls open the file only when no other is writing (`SpacedSavesAreHeld`); and as long as later openings are spaced in
  this way, a call that opens the file can come to publish an index that was never there exactly if another one is
  writing at that moment (`CreateIsSafeIff`).
- Two files share a thumbnail id exactly if one is named like the other with the generated extension appended
  (`ThumbnailNames.NamesCollideExactly`), as "a.png" and "a.png.jpeg" are (`PngMeetsJpeg`).
- Ids of the search index are 32 bits wide and given out again after 2^32 entries. The index is exact exactly if every
  prefix of a listed path is one of the last path listed with its id (`PrefixIndex.ExactIffIdsAgree`), so always up to
  2^32 entries (`ExactBelowLimit`), and not if such a prefix is missing (`WrapAroundIsNotExact`), as with one file
  more, where the lists have the file "4294967296" under "abc" (`NumberedFilesAreNotExact`).
- Sizes in the cleaner are summed in an `int64`; something is removed exactly if the sum modulo 2^64 is neither below the
  limit nor read as negative (`Cleaner.EvictsIff`), so two files of 2^62 bytes stay for every limit but the least `int64`
  (`HugeFilesStay`). A directory of less than 2^64 bytes is at the limit or above it after a pass exactly if it held 2^63
  bytes or more (`PassFailsIff`).
- Filtering by a required phrase does not commute with merging subtrees (`Compaction.PhrasesDoNotCommute`); a filter does
  exactly if directories that cover a passing hit include a passing one (`Compaction.FilterCommutesIff`).

## Model

| member | source | states |
|---|---|---|
| Text.LowerIs | search/prefix_index.go:317 | A text is put into lower case rune by rune. |
| Text.ContainsIff | search/prefix_index.go:145-157 | A text contains another one if and only if it is that one with something before and after it. |
| Text.CompareIs | rclone/rclone.go:549-550 | The first difference of two texts decides, and a beginning comes before the whole. |
| Words.SplitToNormalizedWords | search/prefix_index.go:406-437 | The loop with its reused buffer returns the normalised words of the text, each in memory that no later word overwrites. |
| Words.AppendWord | search/prefix_index.go:407-416 | A long word is returned and gives its buffer away; a short one leaves its buffer for the next word; the words already returned stay as they were. |
| Words.Feed | search/prefix_index.go:423-432 | One rune moves the loop on without changing the words that the whole text will yield. |
| Words.ResplitIsIdentity | search/prefix_index.go:206-217 | Splitting a normalised word again, as searching does, gives that word alone. |
| Words.WordsAtSeparator | search/prefix_index.go:424-427 | Slashes, dots and spaces separate: the words of a decomposed text are those before and those after one. |
| Words.WordBetweenSeparators | search/prefix_index.go:406-434 | Between them the digits, and the letters in lower case, form one word if there are enough, and everything else is dropped. |
| Words.DecomposesEach | search/prefix_index.go:419-422 | A text is decomposed rune by rune. |
| Words.SplitAt | search/prefix_index.go:424-427 | The words of a text are those before and those after a separator that does not decompose. |
| Words.RunesOfWords | search/prefix_index.go:428-431 | Every rune of a word is a digit, or the lower case of a letter of the decomposed text; and the word is long enough. |
| Words.CaseDoesNotMatter | search/prefix_index.go:430-431 | Texts whose decomposed runes agree up to the case of letters have the same words. |
| Words.SplitBelow | search/prefix_index.go:423-426 | The words of a path below a directory are the words of the directory followed by those of the rest. |
| Words.InGenerated | search/prefix_index.go:293-306 | A prefix is generated for a path if and only if it is a prefix, of a length between the two bounds, of a normalised word of the path. |
| Words.PrefixesBelow | search/prefix_index.go:293-306 | Every prefix generated for a directory is generated for every path below it. |
| Query.ReadUntil | search/prefix_index.go:338-357 | Reads up to the first occurrence of the terminator, or to the end, and moves after it. |
| Query.ReadTerm | search/prefix_index.go:369-401 | One turn of the scanner consumes exactly the next term and adds to the lists what this term stands for. |
| Query.NewSearchRequest | search/prefix_index.go:316-404 | The scanner terminates on every input and its three lists are those of the terms of the lower-case text, in order. |
| Query.SpansPartition | search/prefix_index.go:338-381 | For every input the terms are ordered, disjoint slices within bounds; phrases hold no quote, words no space; nothing but punctuation is outside them. |
| Query.TrimIsExact | search/prefix_index.go:383-384 | Trimming takes off exactly the space at both ends. |
| Query.ParsedPhrasesAreProper | search/prefix_index.go:383-392 | For every input the phrases and exclusions are trimmed, not empty and parts of the lower-case text, and phrases hold no quote. |
| Query.RoundTrip | search/prefix_index.go:316-404 | Writing out any phrases, exclusions and words and parsing the text gives them back in order, each word replaced by its normalised split. |
| Query.StartsWithPhrase | search/prefix_index.go:369-391 | Any text that starts with a quote: a phrase up to the next quote, or to the end if there is none, and then what the rest stands for. |
| Query.StartsWithQuotedExclusion | search/prefix_index.go:375-393 | The same after a dash and a quote, as an exclusion. |
| Query.StartsWithExclusion | search/prefix_index.go:375-393 | Any text that starts with another dash: an exclusion up to the next space, or to the end, and none if that is empty. |
| Query.StartsWithWord | search/prefix_index.go:384-396 | Any text that starts with any other character: the words up to the next space or the end. |
| Query.StartsWithSpace | search/prefix_index.go:354-362 | Spaces between terms are skipped, and nothing stands for nothing. |
| Query.ParseConcatenates | search/prefix_index.go:316-404 | Two queries of which the first has no quote, written one after the other, stand for what they stand for, in order. |
| Query.LoneDashIsIgnored | search/prefix_index.go:375-388 | A dash that stands alone means nothing, also between other terms. |
| Scoring.ParsedWordsAreNormal | search/prefix_index.go:394-395 | The words of a parsed query are long enough, and splitting them again does not change them. |
| Scoring.MatchIffSharedStart | search/prefix_index.go:212-219 | A query word hits a path if and only if its first `min` runes begin a word of the path. |
| Scoring.WordPointsClosedForm | search/prefix_index.go:213-216 | The hits counted for a word are its longest common prefix with a word of the path, cut to `max`, less `min` plus one. |
| Scoring.PointsCountLengths | search/prefix_index.go:213-216 | A word has a point for each length from `min` on, up to `max` and its own, that it shares with a word of the path. |
| Scoring.PointsAreSummed | search/prefix_index.go:205-219 | The points of a query are those of its words together. |
| Scoring.ScoreClosedForm | search/prefix_index.go:205-219 | The count over all query words is the sum of these. |
| Scoring.ScoreBounds | search/prefix_index.go:205-219 | A match counts at least one a word, and the maximum exactly if every word cut to `max` begins a word of the path. |
| Scoring.ScoresGrowDownTheTree | search/prefix_index.go:198-249 | If a directory matches, every path below it matches, with at least its count. |
| PrefixIndex.CollectEntries | search/prefix_index.go:53-67 | After the loop an id is listed under a prefix exactly if an entry with that id generates it, and belongs to the last entry it was given to, also when ids wrap around. |
| PrefixIndex.SortLists | search/prefix_index.go:68-71 | Every list keeps its ids and becomes strictly increasing. |
| PrefixIndex.LowerPaths | search/prefix_index.go:96-101 | Exactly the entries have a lower-case path, that of their path. |
| PrefixIndex.Index.constructor | search/prefix_index.go:47-80 | The index is sound and its lists are characterised for listings of any length; it is exact if and only if entries that share an id agree; up to 2^32 entries it is, and entry i is the i-th listed one. |
| PrefixIndex.Index.Decoded | search/prefix_index.go:82-94 | An index read from a file has the stored fields and recomputed lower-case paths. |
| PrefixIndex.ExactBelowLimit | search/prefix_index.go:49-66 | Up to 2^32 entries no id wraps around, and the lists are those of an exact index. |
| PrefixIndex.ExactIffIdsAgree | search/prefix_index.go:49-66 | For listings of any length the index is exact if and only if every prefix of a listed path is a prefix of the last path listed with its id. |
| PrefixIndex.WrapAroundIsNotExact | search/prefix_index.go:49-66 | A prefix of a listed path that the last path with its id lacks makes the index inexact, whatever the listing. |
| PrefixIndex.NumberedFilesAreNotExact | search/prefix_index.go:49-66 | The index over 2^32 + 1 files with different paths, "/abc" and files named by their numbers, lists the last of them under "abc". |
| PrefixIndex.Index.MatchWord | search/prefix_index.go:212-219 | The two loops add to the counter of every id under how many prefixes of the word it is listed, and the matches are the ids listed under some. |
| PrefixIndex.Index.NextWord | search/prefix_index.go:205-239 | One turn keeps the set of ids that match all words so far, and tells when no id can match any more. |
| PrefixIndex.Index.SearchByPrefixes | search/prefix_index.go:198-249 | The matches are exactly the ids that every long enough word lists, and their counters are the sums over the words, for every sound index. |
| PrefixIndex.Index.CollectHits | search/prefix_index.go:126-175 | The hits are those of going through all entries in some order and taking each that the lists and the filters let pass. |
| PrefixIndex.Index.Search | search/prefix_index.go:120-195 | The answer is that of a plain scan of all entries in some order, compacted, ranked and cut; with distinct paths that of a scan in any order; an index that is not exact answers what its lists say. For every index and limit: a query without long enough words, phrases and exclusions has no hit and total 0; any other one panics exactly if the limit is negative and there is a finding; and the hits are as many as the limit allows, each with the path, kind, length, time and score of an entry found. |
| PrefixIndex.ListsAreScan | search/prefix_index.go:198-249 | For an exact index, searching the lists and scanning the paths of the entries give the same answer, in every order. |
| PrefixIndex.RankAndCut | search/prefix_index.go:174-194 | The last part of Search computes the specified answer from the hits. |
| PrefixIndex.AnyScanGivesTheAnswer | search/prefix_index.go:165-180 | With distinct paths any collection of all findings leads to the same answer. |
| PrefixIndex.ScanIsExact | search/prefix_index.go:142-163 | An entry passes if and only if every query word shares its first `min` runes with a word of its path, every phrase occurs in its lower-case path and no excluded phrase does. |
| PrefixIndex.ScoreIsExact | search/prefix_index.go:205-219 | The score of a hit in closed form, its bounds, and when it is maximal, for every query text. |
| PrefixIndex.IterationOrderIrrelevant | search/prefix_index.go:132-138 | Two orders of iteration give the same sequence of hits and the same total. |
| PrefixIndex.LimitCutsTheRanking | search/prefix_index.go:180-194 | A search panics exactly if the limit is negative and there is a hit; otherwise the total is the number of kept hits for every limit, min(limit, total) hits are returned, a smaller limit returns the first of what a larger one does, and a sufficient one exactly the kept hits. |
| PrefixIndex.OutcomeOfSearch | search/prefix_index.go:121-194 | For every request, and also if paths are repeated: no terms, no hits; a panic exactly for a negative limit and a finding; otherwise the total does not depend on the limit, and a smaller limit returns the first of what a larger one does. |
| PrefixIndex.LimitCutsTheAnswer | search/prefix_index.go:180-194 | So of two searches with one order of iteration the one with the smaller limit returns the first hits of the other, and the same total. |
| PrefixIndex.RankingIsPermutation | search/prefix_index.go:179-187 | The ranking holds exactly the compacted hits. |
| PrefixIndex.RankingIsSorted | search/prefix_index.go:182-187 | With names on which the comparison is transitive, scores never rise along the ranking, and hits of equal score are in the order of their names. |
| PrefixIndex.ShownIffStrictlyBetterThanShown | search/prefix_index.go:284-288 | In an index in which directories end with '/' and no file has the path of a directory, a hit below shown directories is shown if and only if its score is strictly higher than that of each of them; paths may be repeated. |
| AllFiles.GetAllFiles | rclone/rclone.go:654-673 | Each entry of the backend's answer gets an absolute path, a directory also a '/' at its end and the size 0, and its leaf. |
| AllFiles.FieldsOfListed | rclone/rclone.go:654-673 | The path, the kind, the length and the time of each listed entry, for any path of an item. |
| AllFiles.LeafIsLastElement | rclone/rclone.go:655-663 | The leaf is not empty, has no '/', and is what follows the directory in the URL. |
| AllFiles.ListingFeedsSearch | rclone/rclone.go:654-673 | For every answer of the backend the directories of the index end with '/'; if its paths are relative, without a '/' at either end, no file has the path of a directory; and if moreover none is listed twice, all paths differ. |
| AllFiles.ShownInListing | search/prefix_index.go:284-288 | So in every search over an answer of the backend with relative paths, also if it repeats some, a hit below shown directories is shown if and only if its score is strictly higher than that of each of them. |
| Compaction.CompactSearchHits | search/prefix_index.go:261-291 | The method computes the specified compaction. |
| Compaction.Fold | search/prefix_index.go:276-290 | The pass that looks only at the last hit kept drops exactly the hits that some earlier directory covers. |
| Compaction.GreedyDecides | search/prefix_index.go:284-288 | In sorted order any earlier directory covers a hit if and only if the last hit kept does. |
| Compaction.CompactIsExact | search/prefix_index.go:259-291 | With distinct paths a hit is kept if and only if no other directory hit of equal score is a prefix of it. |
| Compaction.DroppedIsCoveredByKept | search/prefix_index.go:284-288 | Every dropped hit has a kept directory above it with its score. |
| Compaction.CompactForgetsOrder | search/prefix_index.go:266-272 | The order in which hits arrive does not matter. |
| Compaction.FilterCommutesIff | search/prefix_index.go:142-178 | Filtering before or after compaction is the same if and only if a filter that passes a covered hit passes a directory that covers it. |
| Compaction.ExclusionCommutes | search/prefix_index.go:154-163 | Excluding before or after compaction is the same. |
| Compaction.PhrasesDoNotCommute | search/prefix_index.go:142-152 | For required phrases it is not. |
| Compaction.ShownIffStrictlyBetter | search/prefix_index.go:284-288 | When scores never fall down the tree, and no file has the path of a directory, a hit is kept exactly if it beats every kept directory above it, also if paths are repeated. |
| SearchRefresh.Service.SaveIndexToCache | search/service.go:251-285 | What the file holds after a save that works, and after each way in which it can fail. |
| SearchRefresh.Service.RefreshIndex | search/service.go:209-249 | Success leaves memory and disk with the same complete index over the fetched listing, of any length; failure leaves memory as it was. |
| SearchRefresh.Service.LoadIndexFromCache | search/service.go:113-141 | A whole file with the right lengths gives back the index that was saved; anything else is refused. |
| SearchRefresh.Service.Start | search/service.go:74-111 | Uses the file if it can; otherwise refreshes until the first success, six times at most, and then has no index. |
| SearchRefresh.Service.Tick | search/service.go:157-170 | Within a day of the creation of the index nothing changes; later a refresh is tried. |
| SearchRefresh.Service.Search | search/service.go:190-206 | Without an index there is no answer; with one it is that of a plain scan of the one listing that the index was built from, in some order or, with distinct paths, in any, if its ids agree; and what the lists of the index say in any case. It has the laws of an empty query and of the limit, and every hit shows the path, kind, length and time of a listed entry. |
| SearchRefresh.HitsShowItems | rclone/rclone.go:654-673 | So over what the backend lists with relative paths a hit shows an item: its absolute path, with a '/' for a directory, its length unless it is a directory, its kind and its time. |
| SearchRefresh.AnswersSurviveARestart | search/service.go:113-141 | After a successful refresh a process started anew from the file gives the same answers if paths are distinct, and answers as a scan of the same listing otherwise. |
| RefreshProtocol.SearchesReadOneListing | search/service.go:225-247 | In every run with concurrent refreshes, failures and restarts the index in memory is complete, over one listing fetched in the run. |
| RefreshProtocol.SpacedSavesAreHeld | search/service.go:237-285 | In every run in which calls open the file only when no other call is writing it, whatever else overlaps, fails or is restarted, the index in memory was in the file in full. |
| RefreshProtocol.CreateIsSafeIff | search/service.go:237-285 | In every state, when a call opens the file with an index that was never there, and as long as later openings are spaced, with any failures, refreshes and restarts, it can come to publish an index that the file never held if and only if another call is writing when it opens it. |
| RefreshProtocol.OverlapPublishesUnheld | search/service.go:237-285 | From every state with a call writing beside another, a run without an error publishes its index without the file ever holding it. |
| RefreshProtocol.PublishedNeverHeld | search/service.go:239-247 | A run in which two saves overlap, none fails, and an index is published that the file never held. |
| RefreshProtocol.PublishingAloneSyncs | search/service.go:237-247 | If nobody else opened the file meanwhile, publishing leaves disk and memory equal. |
| RefreshProtocol.SerialRefreshesSync | search/service.go:237-247 | In runs that save and publish one after the other disk and memory are equal between refreshes, unless the last save failed. |
| RefreshProtocol.SerialInStepIff | search/service.go:237-247 | If moreover no two refreshes build the same index, they are equal if and only if the last save did not fail. |
| RefreshProtocol.SettlesInStepIff | search/service.go:237-247 | In every run the refreshes in flight, if they do not fail, end with disk and memory equal in every order of ending if and only if they agree on one index, a writing one is alone, and without one the file holds that index. |
| RefreshProtocol.OverlapParts | search/service.go:237-247 | In every run two refreshes in flight with different indexes can end, without an error, with disk and memory different. |
| RefreshProtocol.AloneAgrees | search/service.go:237-247 | A refresh in flight that is the only one, and alone, meets that condition. |
| RefreshProtocol.PublishedInOppositeOrder | search/service.go:239-247 | Two successful refreshes can leave disk and memory with different indexes. |
| RefreshProtocol.FailedSaveTruncates | search/service.go:273-284 | A failed save can leave a truncated file below a published index. |
| NaturalOrder.ExtractNumber | rclone/rclone.go:560-572 | The value of the leading digits, saturated, and their number, which is at least one. |
| NaturalOrder.CompareStrings | rclone/rclone.go:534-558 | The two-cursor loop terminates and computes the specified comparison. |
| NaturalOrder.ReflexiveAndAntisymmetric | rclone/rclone.go:534-558 | For all texts: zero on equal arguments, and swapping negates. |
| NaturalOrder.FirstDifferenceDecides | rclone/rclone.go:538-557 | Any two texts: the first number or character in which they differ decides, numbers by value, anything else by the whole texts; and if one ends before, the shorter one comes first. |
| NaturalOrder.NumbersDecide | rclone/rclone.go:540-545 | Any two names: after starts that agree, and do not cut a number, the smaller number comes first, however both are padded; one that does not fit an `int` counts as the greatest. |
| NaturalOrder.CharactersDecide | rclone/rclone.go:549-550 | After numbers of one value different characters decide by the whole texts, and by themselves if the numbers are written in the same way. |
| NaturalOrder.PlainTextsCompareByBytes | rclone/rclone.go:549-557 | Texts without digits compare as `strings.Compare` does in lower case. |
| NaturalOrder.AlikeIsTokenOrder | rclone/rclone.go:538-557 | Two texts in which numbers of one value are written in the same way compare like their tokens, and tie only if they are equal. |
| NaturalOrder.WeakOnAlike | rclone/rclone.go:534-558 | On such texts, as "001.jpg" to "999.jpg", the comparison is the weak order that sorting needs. |
| NaturalOrder.LeadingZeroCycle | rclone/rclone.go:549-550 | The cycle "1a" < "01a" < "01b" < "1a". |
| NaturalOrder.CanonicalIsTokenOrder | rclone/rclone.go:538-557 | On texts without redundant zeros and oversized numbers it is the lexicographic order of number and character tokens. |
| NaturalOrder.TotalOnCanonical | rclone/rclone.go:534-558 | There it is a total order on lower-cased text. |
| NaturalOrder.SeparatedIffCanonical | rclone/rclone.go:540-547 | A text is canonical if and only if no other canonical text compares equal to it. |
| NaturalOrder.OrderlyIsTokenOrder | rclone/rclone.go:538-557 | On orderly texts, which also allow an oversized number at the end, the comparison is still the lexicographic order of tokens. |
| NaturalOrder.WeakOnOrderly | rclone/rclone.go:534-558 | On orderly texts the comparison is the weak order that sorting needs. |
| NaturalOrder.DisorderlyBreaks | rclone/rclone.go:534-558 | Every other text closes a cycle with two canonical ones. |
| NaturalOrder.WeakOrderIff | rclone/rclone.go:534-558 | The comparison stays a weak order on the canonical texts when a text is added if and only if the text is orderly; if its numbers fit an int, if and only if it is canonical. |
| Entries.NamesAreOrdered | rclone/rclone.go:506-528 | Comparing by name is a weak order on orderly names, and equates exactly canonical names of the same kind that are equal in lower case. |
| Entries.FittingNamesAreOrdered | rclone/rclone.go:506-528 | The same on any names in which numbers of one value are written in the same way. |
| Entries.NamesCompare | rclone/rclone.go:510-527 | A directory's name is compared without the '/' at its end, a file's as it is, and directories come before files. |
| DirCache.ArrangedGroups | rclone/rclone.go:411-429 | A request for "size", for "time" and for any other text: in a listing on whose names the comparison is transitive directories come before files by name and by size, files of growing size by size, older entries first by time, and ties in natural order; the other way round for "desc". |
| Entries.ComparatorsAreAntisymmetric | rclone/rclone.go:578-596 | Swapping two entries negates each of the three comparisons, for all names. |
| Entries.ComparatorsAreTransitive | rclone/rclone.go:578-596 | Where the comparison by name is transitive, each of the three is. |
| Entries.FittingEntriesAreSortable | rclone/rclone.go:506-528 | It is on orderly names, and on names that pad their numbers in one way. |
| Entries.ComparatorIsWeakOrder | rclone/rclone.go:412-416 | So each of them is a weak order on entries on whose names the comparison is transitive, as sorting needs. |
| DirCache.CacheItem.LoadLocked | rclone/dir_cache.go:61-75 | A hit until the item expires; the result is a new object with the stored content. |
| DirCache.CacheItem.StoreLocked | rclone/dir_cache.go:79-89 | Stores a copy of the content, and when it expires. |
| DirCache.Cache.Get | rclone/dir_cache.go:29-41 | The item of the path, made on first use. |
| DirCache.ReverseInPlace | rclone/rclone.go:424-426 | The array is reversed in place. |
| DirCache.ArrangeInPlace | rclone/rclone.go:411-429 | Sorts the entries in place as ArrangedGroups says for the text of the request, and labels the listing with the sorting, "namedirfirst" for unknown ones, and the order. |
| DirCache.ArrangedIsSorted | rclone/rclone.go:411-429 | The result is a permutation of the listing, sorted by the comparator of the request for such names. |
| DirCache.Rclone.GetListing | rclone/rclone.go:434-455 | Serves the cached listing or the backend's, in a new object, and leaves the cache with exactly the new value of the path. |
| DirCache.Rclone.GetDirInfo | rclone/rclone.go:405-432 | The returned object is new, holds the entries of the listing arranged as requested, and says how; the cache keeps the listing unarranged. |
| DirCache.ServedIsRecent | rclone/dir_cache.go:61-89 | What the cache serves is what the backend answered for that path when its item was fetched, and its item was stored after that, and at most the TTL before. |
| DirCache.AnswersAreRecent | rclone/rclone.go:434-502 | Every answer of any sequence of calls, on any cache, arranges what the backend answered to this call, or to an earlier call for the same path that stored it at most the TTL before, or a listing that the cache had from the start and that has not expired; and there is none exactly if this call asks the backend and is refused. |
| DirCache.AsksBackendIff | rclone/rclone.go:436-455 | A call asks the backend if and only if the cache is off, or neither the listing from the start nor any that an earlier call fetched for its path is still good. |
| DirCache.CallersAreIsolated | rclone/rclone.go:405-432 | For any number of calls, with any writes between them to the fields and arrays of everything returned so far, the answers are those of a cache that no caller can write to, and recent in the sense of AnswersAreRecent. |
| ListingProtocol.System.ListingSafety | rclone/rclone.go:434-502 | In every run at most one request for a path is in flight, returned listings are genuine and were stored for their path at most the TTL before, and the times at which listings were stored for one path are more than the TTL apart. |
| ThumbnailNames.NamesCollideExactly | thumbnails/service.go:684-705 | Two thumbnails have one id if and only if size, time and length agree and the files are the same or one is named like the other plus the generated extension. |
| ThumbnailNames.PngMeetsJpeg | thumbnails/service.go:684-718 | The thumbnails of "a.png" and "a.png.jpeg" have one id. |
| ThumbnailNames.ResizedTypesAreWritable | thumbnails/service.go:488-505 | Every thumbnail to be generated has a type that the resize command can write. |
| ThumbnailRequests.RequestByExtension | thumbnails/service.go:565-756 | What a request comes to for every file with an extension: an error for unknown ones and empty files; the file itself for a gif and for a small file that need not be converted; otherwise the name of the thumbnail, by format and size. |
| ThumbnailRequests.NoExtensionNoThumbnail | thumbnails/service.go:565-756 | A request for a file without an extension is an error. |
| ThumbnailNames.OriginalsCollideExactly | thumbnails/service.go:665-681 | The id of a generated thumbnail is that of a file used as it is exactly if the source is below the threshold. |
| ThumbnailSafety.OwnershipKept | thumbnails/service.go:624-643 | Every step keeps the ids in progress the disjoint union of those marked, queued, held by a worker and drained. |
| ThumbnailSafety.OriginalsKept | thumbnails/service.go:281-307 | Every step, restarts included, keeps the locks of originals exact, each cached original incomplete exactly while it is written or after a write that left it so and otherwise whole, and the bound on downloads. |
| ThumbnailSafety.ThumbsKept | thumbnails/service.go:208-279 | Every step keeps each cached thumbnail incomplete exactly while it is written or after a write that left it so; and one made from a whole original was requested for its file. |
| ThumbnailSafety.SpoiledKept | thumbnails/service.go:248-254 | Every step keeps each thumbnail that was made from an incomplete original one of a RAW image, whose size is not checked, and after a failed write or an error of opening of that original. |
| ThumbnailSafety.WaitsKept | thumbnails/service.go:645-658 | Every step keeps each waiting call on an id in progress, or a task for it has finished since. |
| ThumbnailSafety.MarksKept | thumbnails/service.go:624-635 | Every step keeps the account of marks, evictions, failures, stale looks and errors of opening. |
| ThumbnailSafety.OneLiveTask | thumbnails/service.go:624-643 | In every run an id in progress has exactly one owner, and no two workers process one thumbnail. |
| ThumbnailSafety.OneDownload | thumbnails/service.go:281-307 | In every run at most one worker is inside the section of a file, downloads number at most one plus evictions, failures and errors of opening, and outside the section the original is missing, or incomplete if its last write left it so, or else whole. |
| ThumbnailSafety.OpensWholeExactly | thumbnails/service.go:288-306 | In every run a worker opens the whole original, and is otherwise marked as reading an incomplete one, exactly if the last write of the original did not leave it incomplete. |
| ThumbnailSafety.PartialExactly | thumbnails/service.go:208-279 | In every run, for every id, the cache file is incomplete if and only if a worker is writing it, or its last write was a copy that ended short, a resize whose file could not be removed, or cut off; a complete one was made from the whole original of a requested file, or it is a resized RAW image and its original had trouble. |
| ThumbnailSafety.CallersSeePartialExactly | thumbnails/service.go:619-661 | In every run a call that reads the cache is handed the file that is there, and one that is incomplete at that moment exactly under this condition. |
| ThumbnailSafety.TornOnlyByRepeatedMarks | thumbnails/service.go:619-643 | In every run a thumbnail is truncated while it is there at most as often as it was marked while it was there; a call that has it open loses it only then, and only if it was marked at least twice. |
| ThumbnailSafety.ReadersKept | thumbnails/service.go:619-643 | Every step keeps the account of truncations, and of the calls whose open thumbnail was truncated. |
| ThumbnailSafety.AtRest | thumbnails/service.go:463-475 | In every run, for every id not in progress, images used as they are included, the file is missing, or made from a whole original, or from an incomplete one of a RAW image, or left incomplete by its last write, and the last only after a failure. |
| ThumbnailSafety.ResizedIsAbsentOrWhole | thumbnails/service.go:248-270 | In every run a thumbnail to be resized that is not in progress is missing or complete, if removals work and no restart cut it off; and it was made from the whole original of a requested file, unless that is RAW and had trouble. |
| ThumbnailSafety.BlockedExactlyWhenFull | thumbnails/service.go:636-643 | In every run of an open service a call that has marked its task waits to send it exactly while ten thousand tasks are in the channel. |
| ThumbnailSafety.PollersSawAFinish | thumbnails/service.go:645-661 | In every run a call that leaves the loop without an error saw a task for its thumbnail finish. |
| ThumbnailSafety.OnlyStaleLooksGenerateAgain | thumbnails/service.go:587-643 | Without evictions and failures of a thumbnail, its tasks are one more than the calls that marked it when it was there, because they had looked into the cache before or could not open it. |
| ThumbnailShutdown.PanicsIff | thumbnails/service.go:760-766 | A closed service can still panic if and only if some call has marked a task, or is before marking an id that was not drained. |
| ThumbnailShutdown.CloseIsSafeIff | thumbnails/service.go:760-766 | Closing the channel is safe if and only if no call is between the check at line 592 and the send at line 637. |
| ThumbnailShutdown.ExposedPanics | thumbnails/service.go:592-643 | From every closed state with such a call there is a run to the panic. |
| ThumbnailShutdown.QuietRuns | thumbnails/service.go:592-643 | From every closed state without one there is none. |
| ThumbnailShutdown.TasksAreTakenInOrder | thumbnails/service.go:637-643 | In every run of one process the tasks waiting at first, followed by those sent, are those taken by workers or dropped by Shutdown, followed by those waiting in the end. |
| ThumbnailRuns.SecondCallGenerates | thumbnails/service.go:587-643 | A run in which a thumbnail is generated twice without an eviction or a failure. |
| ThumbnailRuns.ReaderIsTruncated | thumbnails/service.go:587-643 | A run in which a whole thumbnail is truncated under the call that was given it, without an eviction or a failure. |
| ThumbnailRuns.ShutdownPanics | thumbnails/service.go:760-766 | A run in which Shutdown makes a call panic. |
| ThumbnailRuns.EarlyOpenSeesPartial | thumbnails/service.go:619-622 | A run in which a call is handed a thumbnail that is being written. |
| ThumbnailRuns.ShortCopyStays | thumbnails/service.go:463-475 | A run that leaves a short copy in the cache although no removal failed. |
| ThumbnailRuns.BrokenOriginalStays | thumbnails/service.go:302-305 | A run that leaves an incomplete original in the cache outside the section. |
| ThumbnailRuns.BrokenOriginalIsUsed | thumbnails/service.go:248-262 | A run in which a thumbnail of a RAW image is made from it without an error. |
| ThumbnailSafety.GivenKept | thumbnails/service.go:619-662 | Every step keeps each whole thumbnail that a call was given the output for a file its thumbnail was requested for. |
| ThumbnailRequests.SameThumb | thumbnails/service.go:609-615 | Requests with one thumbnail id are for one file, or for two of one time and length of which one is named like the other plus its generated extension or like a generated thumbnail of the other; for large resized files only the former. |
| ThumbnailRequests.CallersAreGivenTheirFile | thumbnails/service.go:588-663 | In every run of requests a call that is given a complete thumbnail is given one made from the file it asked for or from one that can share its id in this way, and from the whole original unless that file is RAW. |
| ThumbnailRequests.ThumbnailIsOfItsFile | thumbnails/service.go:588-663 | In every run of requests the cached thumbnail at rest is missing, or a complete one of this file or one that can share its id, made from the whole original unless that file is RAW, unless its last write left it broken; a large file's is never a short copy. |
| Cleaner.GetFilesToRemove | pkg/cache/cleaner.go:134-163 | The sort and the loop with wrapping sums return the specified files, and leave the list sorted or untouched. |
| Cleaner.VictimsAreOldest | pkg/cache/cleaner.go:143-162 | Removed and kept files are the given ones, and no kept file is older than a removed one. |
| Cleaner.VictimsAreMinimal | pkg/cache/cleaner.go:134-162 | Nothing is removed below the limit; otherwise the shortest part by age that brings the rest strictly below it, or all files. |
| Cleaner.EvictsIff | pkg/cache/cleaner.go:135-141 | For every total, something is removed if and only if the total modulo 2^64 is at least the limit and below 2^63. |
| Cleaner.HugeFilesStay | pkg/cache/cleaner.go:135-141 | Two files of 2^62 bytes are not evicted if and only if the limit is not the least `int64`. |
| Cleaner.Cache.RemoveFiles | pkg/cache/cleaner.go:165-176 | Exactly the files that can be removed are gone; the counts, and the sum of their sizes, are right. |
| Cleaner.Cache.Cleanup | pkg/cache/cleaner.go:71-107 | One pass over the directory leaves the specified files; a failed walk changes nothing. |
| Cleaner.CleanupIsMinimal | pkg/cache/cleaner.go:71-176 | After a pass the directory is below the limit or empty, by removing oldest files first and no more than needed. |
| Cleaner.PassFailsIff | pkg/cache/cleaner.go:71-176 | With removals that work, a pass leaves a directory of less than 2^64 bytes at the limit or above it if and only if it held 2^63 bytes or more; for any size, what it leaves is at the limit or above it if and only if it comes to 2^63 bytes or more. |
| Cleaner.CleanupRemovesVictims | pkg/cache/cleaner.go:165-176 | With files that cannot be removed, exactly the other chosen ones go. |
| DiskCache.SameFileExactly | pkg/cache/disk.go:124-133 | Two ids have one file if and only if time, size, extension and the hash of the path agree. |
| DiskCache.Cache.Write | pkg/cache/disk.go:84-114 | A write that works caches what was read; one that fails leaves nothing, if cleaning up works; other ids are untouched. |
| DiskCache.Cache.Open | pkg/cache/disk.go:50-66 | The content cached for the id, if any. |
| DiskCache.Cache.Remove | pkg/cache/disk.go:119-121 | The file is gone, or stays if it cannot be removed; other ids are untouched. |

## Left out

- Texts are sequences of Unicode scalar values, which valid UTF-8 decodes to; invalid UTF-8 is not modelled. Byte lengths are modelled where they are compared.
- Unicode tables are parameters. NFKD (section 1.2 of UAX #15) is applied rune by rune, without the canonical reordering of combining marks, which are dropped anyway. `Text.Unicode.Standard` is all that is assumed: '/' does not decompose, the punctuation of queries has no case, and a rune that splitting keeps is kept as itself when split again.
- `slices.SortFunc` is a fixed insertion sort that is sorted whenever the comparator is a weak order; the library's order of elements that compare equal, or under a comparator that is none, is not modelled.
- Scores are integers, or infinity for queries without words; `float32` is exact below 2^24.
- JSON, gzip and gob keep what is encoded, and decoding detects a truncated or mixed file. Errors of encoding and decoding a cached listing do not occur.
- Of the response of a listing the model takes the result of the cleaning at `rclone/rclone.go:474-497`: the removal of empty names, the unescaping and joining of names, and breadcrumbs are not modelled.
- ThumbnailSafety.OneDownload: errors other than a cache miss make openImage download again (lines 288 to 298), so they are counted besides evictions and failed writes.
- ThumbnailProtocol takes resizing, the extraction of previews from RAW images and downloads as steps that succeed or fail at will, and the tickers as polling at any time; metrics and logs are not modelled. The timeout of a task is a failure. A resize opens its output file at once. A download that ends without an error is the whole original, and a file that could not be closed counts as incomplete.
- A restart of the thumbnail service keeps the files of both caches, and the counters and sets of the model go on; a file that was being written stays incomplete. The first start finds both caches empty.
- The hash of `generateFilepath` is any function of fixed length; `DiskCache` states its results up to collisions, and the thumbnail protocol treats different ids as different files.
- Paths of a file id are already clean; `path.Clean` is not modelled.
- Process start, HTTP handlers, templates, proxying, the in-memory cache, file types, icons and the formatting of sizes are not modelled.
