# ICGI gene-symbol resolution and expression-data shaping, in Dafny

This project models two scripts of the ICGI repository.

**`code/gene_to_id.py`** resolves human gene symbols to Entrez Gene IDs. It has two parts:

- **The retry policy** (module `Retry`, `retry.dfy`). Every ESearch and EFetch call is made at most six times. A call is retried only after a `requests.RequestException`, which `raise_for_status` also raises for a 4xx or 5xx status. Any other exception propagates at once. The transport is abstract: attempt `k` of a call ends `Ok(value)`, `Transient` or `Other`. `CallWithRetry` is the attempt loop, and `Retried` is the function that specifies it.
- **The resolver** (module `GeneToId`, `gene_to_id.dfy`). The remote database is a `Remote` value. It gives the outcome of every attempt at ESearch (per gene) and at EFetch (per id). It also gives the readers that turn a response body into an id list or a `GeneRecord` (the discontinued flag, the official-symbol nodes and the alias set).
  - `Decide` is the decision procedure over a candidate list and a record lookup. Zero, one and several candidates each take their own branch.
  - `Scan` is the loop over several candidates. It skips discontinued records, stops at the first exact official-symbol match and collects alias matches in order.
  - `ResolveGene` is the per-gene body of the main loop, written as imperative code and proved equal to `Resolve`.
  - The class `Converter` holds what the main loop accumulates: the `gene_id_dict`, the lines of `genes_None.txt` and of `genes_NCBI_Discontinued_1.txt`, and whether `check_gene_id` is bound. It also holds the exception handler of that loop.

**`code/extract_data.py`** shapes the expression data (module `ExtractData`, `extract_data.dfy`, using the string functions of module `Text`, `text.dfy`). The model covers:

- the integer branch of `is_zero`;
- `load_gene_ids`, which filters the gene/ENSG pairs and inverts them;
- the sample-selection loop, which filters barcodes by vial, keeps the first item per sample id, labels samples and builds `sample_info` from version-stripped ids;
- the low-expression column filter.

## Model

| member | source | states |
|---|---|---|
| `Retry.CallWithRetry` | code/gene_to_id.py:9-15 | makes 1 to 6 attempts, and every attempt before the last failed transiently; returns the last attempt's value iff it returned, the exception iff it was non-retryable, and exhaustion iff the sixth attempt failed transiently; equals `Retried` |
| `Retry.RetryFrom` | code/gene_to_id.py:9-15 | from attempt k on, a call that returns gives the value of one of the attempts k to 6; a failure is exhaustion or the non-retryable exception, and exhaustion means the sixth attempt failed transiently |
| `Retry.Retried` | code/gene_to_id.py:9-15 | a retried call's value is the value of one of its six attempts; it fails only by exhaustion or by the non-retryable exception |
| `Retry.RetriedExhausts` | code/gene_to_id.py:10-14 | a call fails with exhaustion iff all six attempts failed transiently |
| `Retry.SettlingFrom` | code/gene_to_id.py:10-14 | the settling attempt is the first non-transient one, or the sixth; every attempt before it failed transiently |
| `Retry.RetryFromSettles` | code/gene_to_id.py:9-15 | the outcome of a retried call depends only on how its settling attempt ended |
| `Retry.AlwaysTransientExhausts` | code/gene_to_id.py:9-15 | a transport that always fails transiently is tried exactly 6 times, and the call then fails with exhaustion |
| `Retry.RetriedDone` | code/gene_to_id.py:61-65 | a call returns `v` iff some attempt among the first six returned `v` and every earlier attempt failed transiently |
| `Retry.RetriedPropagates` | code/gene_to_id.py:12-14 | a call ends in the non-retryable exception iff such an exception came after transient failures only; it is never retried |
| `GeneToId.Search` | code/gene_to_id.py:111-113 | an id list is returned only if one of the six ESearch attempts returned a body from which the reader took that list; a retry failure is the failure of the retried call, and an unreadable body is reported only after an attempt succeeded |
| `GeneToId.Fetch` | code/gene_to_id.py:155-156 | a record is returned only if one of the six EFetch attempts returned a body that parses to that record; a retry failure is the failure of the retried call, and an unparsable body is reported only after an attempt succeeded |
| `GeneToId.ExactMatch` | code/gene_to_id.py:189-208 | an exact match means the gene is among the record's official symbols; a record with no official symbol never matches exactly |
| `GeneToId.AliasMatches` | code/gene_to_id.py:213-214 | the candidates, in relevance order, whose fetched record is live and lists the gene as an alias; there are never more of them than candidates (their contents are stated by `AliasMatchesFirst` and `AliasMatchesAreCandidates`) |
| `GeneToId.Decide` | code/gene_to_id.py:116-222 | no candidates is reported iff the id list is empty; a resolved id is one of the candidates; "sole discontinued" only with exactly one candidate; an abort carries the fault of some candidate's fetch |
| `GeneToId.Resolve` | code/gene_to_id.py:111-226 | a resolved id is in the ESearch id list; no candidates is reported iff ESearch returned an empty list; when the search succeeded, an abort carries the fault of the EFetch of one of its ids |
| `GeneToId.EmptySearchReportsNone` | code/gene_to_id.py:116-122 | an empty id list appends the gene to genes_None.txt and changes nothing else |
| `GeneToId.Scan` | code/gene_to_id.py:154-214 | an exact-match stop or an abort happens at a position inside the candidate list, at or after the starting position; an abort carries the fault of that candidate's fetch |
| `GeneToId.ScanExactAt` | code/gene_to_id.py:189-211 | the scan stops at position k iff the record there is live and its first official symbol equals the gene, and every earlier record was fetched and did not match that way |
| `GeneToId.ScanAbortedAt` | code/gene_to_id.py:154-156 | the scan is aborted by the fault at position k iff that fetch failed and every earlier candidate let the scan go on |
| `GeneToId.ScanExhausted` | code/gene_to_id.py:165-214 | the loop runs to the end iff no fetched record is a live exact match; its alias list is then the live alias matches in relevance order, and discontinued ones are never appended |
| `GeneToId.AliasMatchesFirst` | code/gene_to_id.py:213-219 | the alias list is empty iff no candidate is a live alias match; its head is the earliest such candidate |
| `GeneToId.AliasMatchesAreCandidates` | code/gene_to_id.py:213-214 | every alias candidate is one of the search ids |
| `GeneToId.SoleCandidate` | code/gene_to_id.py:124-145 | a single candidate is accepted iff its record was fetched and is not discontinued, with no symbol or alias check; a discontinued one is unresolved |
| `GeneToId.FirstExactMatchWins` | code/gene_to_id.py:189-211 | with several candidates, the first live exact match in relevance order is the answer whatever the alias matches are, and exactly the records up to it are fetched |
| `GeneToId.EarliestAliasWins` | code/gene_to_id.py:213-219 | with several candidates and no live exact match, the earliest live alias match is the answer, after every record is fetched |
| `GeneToId.FallbackToTopCandidate` | code/gene_to_id.py:216-222 | with several candidates, no exact match and no alias match, the answer is `ids_list[0]` |
| `GeneToId.SeveralCandidatesAbort` | code/gene_to_id.py:228-233 | with several candidates, resolution fails with fault f iff some fetch failed with f before any live exact match was seen |
| `GeneToId.ResolvedIsCandidate` | code/gene_to_id.py:216-222 | a resolved id is always one of the search ids; it is a live fetched record unless it is the top-ranked fallback |
| `GeneToId.DiscontinuedFallbackIsKept` | code/gene_to_id.py:152-172 | an example in which the top-ranked candidate is discontinued and is still the answer |
| `GeneToId.FetchRecord` | code/gene_to_id.py:155-156 | the retried EFetch call followed by the parse yields the record lookup `Fetch` |
| `GeneToId.ResolveGene` | code/gene_to_id.py:111-226 | the imperative per-gene body computes `Resolve`; the records it fetches are exactly the first `Consulted` candidates in order; it enters the scan loop (`ScanCandidates`) iff the search gave two or more ids |
| `GeneToId.ScanCandidates` | code/gene_to_id.py:154-214 | the imperative `for check_gene_id` loop: on an exact match at k it clears the alias list and picks `ids_list[k]`, having fetched the first k+1 ids; when it runs to the end it keeps `ids_list[0]` and the alias list of `Scan`, having fetched every id; a failed fetch at k stops it with that fault |
| `GeneToId.Step` | code/gene_to_id.py:110-233 | a resolved gene sets its dictionary entry and leaves the failure lists alone; an unresolved gene leaves the dictionary alone and is appended to exactly one failure list, genes_NCBI_Discontinued_1.txt only with its sole id; `check_gene_id` is bound afterwards iff it was bound before or this gene's search returned two or more ids |
| `GeneToId.RunAll` | code/gene_to_id.py:109-233 | only processed genes gain entries; each gene adds at most one failure line; `check_gene_id` stays bound once bound |
| `GeneToId.RunAllBinds` | code/gene_to_id.py:109-233 | after the main loop `check_gene_id` is bound iff it was bound before or some processed gene's search returned two or more ids |
| `GeneToId.RunAllDictionary` | code/gene_to_id.py:109-233 | after the main loop a symbol has an entry iff it had one before or it was processed and resolved, and its entry is its resolution; a failure never removes an entry |
| `GeneToId.RunAllReportsFailures` | code/gene_to_id.py:116-145 | every processed unresolved symbol is written to genes_None.txt or genes_NCBI_Discontinued_1.txt, and only unresolved ones reach genes_None.txt |
| `GeneToId.RunAllKeepsReports` | code/gene_to_id.py:228-233 | the failure lists only grow |
| `GeneToId.StoredIdIsCandidate` | code/gene_to_id.py:222 | every id in the final dictionary is one of the ids that ESearch returned for that symbol |
| `GeneToId.SoleDiscontinuedRouting` | code/gene_to_id.py:138-145 | a sole discontinued candidate never gives an entry; before any scan loop has bound `check_gene_id`, the NameError sends the gene to genes_None.txt, and afterwards it goes to genes_NCBI_Discontinued_1.txt |
| `GeneToId.Converter.constructor` | code/gene_to_id.py:107 | starts with an empty dictionary, empty failure lists and `check_gene_id` unbound |
| `GeneToId.Converter.ProcessGene` | code/gene_to_id.py:110-233 | one loop iteration with its handler updates the state as `Step` |
| `GeneToId.Converter.Run` | code/gene_to_id.py:109-233 | the main loop over all genes updates the state as `RunAll` |
| `ExtractData.IsZero` | code/extract_data.py:7-14 | an int is zero iff it equals 0; a float is zero iff it is within the tolerance; anything else raises ValueError |
| `ExtractData.KeptPairs` | code/extract_data.py:29-30 | keeps exactly the pairs whose gene is a key of gene_to_id.json |
| `ExtractData.KeptPairsConcat` | code/extract_data.py:30 | the filter distributes over concatenation, so the original order is kept |
| `ExtractData.Invert` | code/extract_data.py:31 | the keys are exactly the ids of the pairs, and each maps to the gene of one of its pairs |
| `ExtractData.InvertLastWins` | code/extract_data.py:31 | when an id repeats, the later pair's gene wins |
| `ExtractData.Ids` | code/extract_data.py:32 | the ids of the pairs, one per pair, in order |
| `ExtractData.LoadGeneIds` | code/extract_data.py:23-34 | `gene_ids` lists the kept pairs' ids in order; `id_to_gene` is the inversion of the kept pairs (so the later pair wins, by `InvertLastWins`), has exactly those keys, and maps each to a selected gene paired with it |
| `ExtractData.SampleId` | code/extract_data.py:65 | the sample id is a prefix of the barcode, and its dash-separated fields are exactly the barcode's first four |
| `ExtractData.Vial` | code/extract_data.py:61 | the vial is one of the barcode's dash-separated fields and contains no dash |
| `ExtractData.Wanted` | code/extract_data.py:61-64 | an item is wanted only if its barcode has a fourth dash field and that vial is 01A or 11A |
| `ExtractData.VialsSeparateSamples` | code/extract_data.py:61-65 | two wanted items with different vials (a tumour and a normal sample) never share a sample id |
| `ExtractData.Label` | code/extract_data.py:75 | the label is 0 or 1; for a wanted item it is 0 exactly when the vial is 11A |
| `ExtractData.Contains` | code/extract_data.py:72 | `str.contains`: true iff `t` occurs in `s` at some position |
| `ExtractData.ExpressionRows` | code/extract_data.py:71-72 | the used rows are those after the first four whose gene id does not contain "_PAR_Y" |
| `ExtractData.ExpressionRowsConcat` | code/extract_data.py:71-72 | exactly the first four rows are dropped, and the rest are filtered in their table order |
| `ExtractData.DropPar` | code/extract_data.py:72 | drops exactly the rows whose gene id contains "_PAR_Y" and never adds rows |
| `ExtractData.DropParConcat` | code/extract_data.py:72 | the filter distributes over concatenation, so kept rows keep their order |
| `ExtractData.Latest` | code/extract_data.py:77-82 | `tmp_dict` has exactly the gene ids of the rows as keys, and each maps to the value of one of its rows |
| `ExtractData.LatestLastWins` | code/extract_data.py:77-82 | a repeated gene id maps to the value of its last row |
| `ExtractData.Insert` | code/extract_data.py:83-85 | one insertion adds the id's truncation as a key and touches no other key; the entry kept is the new id or the old one, never an id less than the new one, and never less than the old one |
| `ExtractData.Collapse` | code/extract_data.py:83-85 | the keys are exactly the truncated ids of the rows, and each entry is one of the rows |
| `ExtractData.CollapseIsGreatest` | code/extract_data.py:83-85 | for each truncated id, `Collapse` keeps the greatest full id with that truncation and that id's `Latest` value |
| `ExtractData.SampleInfo` | code/extract_data.py:83-86 | the keys of `sample_info` are the ids truncated at the first "." plus "label", and "label" holds the sample's label |
| `ExtractData.SampleInfoValue` | code/extract_data.py:83-85 | for ids that share a truncation, the value kept is that of the greatest id in sorted order |
| `ExtractData.Info` | code/extract_data.py:69-86 | the sample record has a "label" entry holding the item's label, and its other keys are exactly the truncated gene ids of the sample's used rows |
| `ExtractData.Chosen` | code/extract_data.py:61-67 | the kept positions are, in increasing order, exactly the items whose vial is 01A or 11A and whose sample id no earlier such item has |
| `ExtractData.Selected` | code/extract_data.py:88-90 | `samples` and `data` always have equal length |
| `ExtractData.SelectedIsChosen` | code/extract_data.py:55-90 | `samples` and `data` hold, aligned and in cart order, the barcode and the sample record of each kept item |
| `ExtractData.SeenStep` | code/extract_data.py:89 | `samples_set` grows by the sample id of each wanted item |
| `ExtractData.Seen` | code/extract_data.py:89 | `samples_set` after the first n items holds the sample id of every wanted item among them |
| `ExtractData.FirstIffUnseen` | code/extract_data.py:65-67 | a wanted item is the first of its sample iff its sample id is not yet in `samples_set` |
| `ExtractData.ChosenDistinctSamples` | code/extract_data.py:65-67 | no two kept items share a sample id |
| `ExtractData.ChosenCoversSamples` | code/extract_data.py:61-67 | every wanted item's sample is kept, through an item at or before it |
| `ExtractData.LabelIsTumour` | code/extract_data.py:75 | a kept sample's label is 1 iff its vial is "01A", and 0 iff it is "11A" |
| `ExtractData.SelectSamples` | code/extract_data.py:53-90 | raises IndexError iff some barcode has fewer than four dash fields; otherwise returns the selection `Selected` |
| `ExtractData.ZeroCount` | code/extract_data.py:109 | raises ValueError iff some value is neither int nor float; otherwise the count is exactly the number of int zeros plus floats within the tolerance, is 0 iff no value is zero, and equals the length iff every value is zero |
| `ExtractData.KeptGenes` | code/extract_data.py:104-115 | when the filter succeeds, every kept name belongs to a column with at most half zeros, and every such column's name is kept |
| `ExtractData.SingleColumn` | code/extract_data.py:109-115 | a column is kept iff twice its zero count is at most the row count |
| `ExtractData.MostlyZero` | code/extract_data.py:112 | with at least one row, `percentage_0 > 0.50` holds exactly when the zero count divided by the row count exceeds one half |
| `ExtractData.HalfThreshold` | code/extract_data.py:109-112 | a ratio to a positive total exceeds one half iff twice the numerator exceeds the total |
| `ExtractData.KeptGenesConcat` | code/extract_data.py:106-115 | the filter distributes over concatenation, so kept columns keep their order and each column is judged alone |
| `ExtractData.KeptGenesErrors` | code/extract_data.py:105-109 | with no rows and at least one gene column the division raises ZeroDivisionError; with rows, the filter fails iff some value is neither int nor float |
| `ExtractData.SelectGenes` | code/extract_data.py:104-116 | the loop returns the kept gene columns in order with "label" last, or the filter's error |
| `Text.Split` | code/extract_data.py:61 | `split` gives at least one part, and no part contains the separator |
| `Text.Join` | code/extract_data.py:65 | the join starts with the first part and, when there are more parts, a separator follows it |
| `Text.JoinSplit` | code/extract_data.py:65 | joining the parts of a split gives back the string |
| `Text.SplitJoin` | code/extract_data.py:65 | splitting a join of separator-free parts gives back the parts |
| `Text.JoinPrefix` | code/extract_data.py:65 | joining the first k parts gives a prefix of joining them all |
| `Text.Head` | code/extract_data.py:84 | `s.split(".")[0]` is the longest prefix of `s` without a "."; it is followed by "." unless it is all of `s` |
| `Text.Less` | code/extract_data.py:84 | a proper prefix comes first; nothing comes before one of its own prefixes; the first code points never decrease from the lesser string to the greater |
| `Text.LessTotal` | code/extract_data.py:84 | the order `sorted` uses on strings is total |
| `Text.LessTransitive` | code/extract_data.py:84 | that order is transitive |

## Quirks of the code that the model keeps

- **Discontinued fallback.** A discontinued record can still be the answer. With several candidates and no symbol or alias match, `ids_list[0]` is stored even if its record was found discontinued (`GeneToId.DiscontinuedFallbackIsKept`).
- **Sole discontinued candidate.** This candidate is reported through a log line that reads `check_gene_id`. While no earlier gene has run the scan loop, that name is unbound. The NameError is caught, and the gene is written to genes_None.txt instead of genes_NCBI_Discontinued_1.txt (`GeneToId.SoleDiscontinuedRouting`). Either way the gene gets no entry.
- **No fatal errors.** Every exception raised while one gene is resolved is caught by the loop's handler. None of them ends the run.

## Left out

- HTTP requests, URL and parameter construction, and the API key are not modelled. Neither is the 3-second `wait_fixed` pause between attempts: attempts are counted, but time is not.
- JSON decoding and the ElementTree queries are given by `Remote.idList` and `Remote.record`. Both are abstract readers: a body either yields a value or raises.
- The remote database is deterministic in the model. The same call always has the same attempt outcomes, so a symbol listed twice resolves the same way both times. A real server can answer differently on a later call.
- Log-file text, including the stale id that the sole-discontinued log line prints, is not modelled. Neither are the genes_NCBI_Discontinued_2.txt appends, `tqdm`, reading query_genes.txt, or writing gene_to_id.json. These are I/O only.
- The float branch of `is_zero` is modelled as a given boolean (`FloatCell.belowTolerance`), because floating point is not modelled.
- `percentage_0 > 0.50` is modelled as the exact comparison `2 * zeros > N`. Float rounding of `zeros / N` could differ only for row counts beyond 2^53.
- Reading the cart metadata and the sample TSV files is not modelled. Neither are building, relabelling and saving DataFrames (code/extract_data.py:17-20, 93-101, 122-127), printing, or the `Counter` statistics (code/extract_data.py:38-51). A sample table is given by a reader from file id and file name to (gene id, value) rows.
- ExtractData.Collapse: folds the rows in table order and keeps the greater id for each truncation. The source instead iterates over the sorted keys and lets the last write win. Both end with the greatest id, but this is argued, not proved, because sorting is not modelled.
- The outer loop over the six TCGA datasets is not modelled. The model covers one dataset.
- code/id_to_info.py is not part of this model. It is a network fetch with field extraction and file output.
