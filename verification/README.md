# Higgs decay analysis drivers: a Dafny model

The repository generates proton-proton collision events with Pythia 8. It
picks out the decayed Higgs bosons and writes one text record per decay: the
production channel, the species codes of the decay products, invariant masses
and, in the jet variants, which anti-kt jet each decay product ended up in. A
small Python tool rewrites the Wilson coefficients of a MadGraph parameter
card between runs.

This project models the deterministic core of those drivers over an abstract
event record and proves properties of it. The event record is a sequence of
particle entries with species code, status, final-state flag, mothers and
daughter range. The event generator, the jet clusterer and all floating-point
kinematics are parameters.

| module | file | models |
|---|---|---|
| `Wrappers` | wrappers.dfy | `Option` |
| `Text` | text.dfy | what `operator<<` writes for an `int`; separator joins and splits |
| `EventRecord` | event.dfy | particle entries; the `j`/`k` selection loops; the three "decay product" rules |
| `DecayWalker` | walker.dfy | `traceToFinalState` (com13wjets.cc, com100wjets.cc) |
| `JetAssociation` | jets.dfy | `particleIdToIndexMap`, `particleToJetMap`, the back-projection loop, and a per-product association that is used as the corrected reference |
| `JetFindings` | jet_findings.dfy | concrete two-body events that show where the species-keyed maps go wrong |
| `JetRows` | jetrows.dfy | the rows of com13wjets.cc and com100wjets.cc, as written and corrected; their event loops |
| `ProductionChannel` | channel.dfy | `identifyProductionChannel` |
| `LheScan` | lhe.dfy | `parseLHEProductionChannels` over the lines of an LHE file |
| `SmeftTraining` | smeft.dfy | rows, jet multiplicity and the event loop of training_smeft100.cc |
| `SubsetMasses` | subsets.dfy | the bit-mask subset enumeration and rows of thirtytev6.03.cc |
| `PairListing` | pairs.dfy | the pair listing of allChannels.cc |
| `HiggsCounters` | counters.dfy | the Higgs and diphoton counters of testScript5.cc and testScript4.cc |
| `ParamCard` | paramcard.dfy | `update_wilson_coefficients` and the key set of `generate_random_coefficients` |

Floating-point values never appear as numbers. Invariant masses, jet pT, eta,
phi and mass, and the `.6e` coefficient text are carried as the text the
program prints. They are either fields of a jet or values of a function
parameter. The one comparison made on a float, `jet.pt() > 30.0`, is modelled
on `real`.

Two things in the jet drivers do not do what the rows evidently mean to
record. Both are under "## Findings". The model proves facts about the code
as written, defines the corrected behaviour next to it, and proves when the
two agree.

## Model

| member | source | states |
|---|---|---|
| DecayWalker.Trace | scripts/data/com13wjets.cc:23-36 | the walker only appends to the vector; every appended entry is a final-state record at or after the start record, and never the system entry 0 unless that is the start |
| DecayWalker.TraceFinal | scripts/data/com13wjets.cc:25-28 | tracing a final-state record appends exactly that one index |
| DecayWalker.TraceDaughters | scripts/data/com13wjets.cc:31-35 | the daughter loop only appends, and only final-state records that lie after the parent |
| DecayWalker.TraceNoDaughters | scripts/data/com13wjets.cc:31-35 | a non-final record whose daughter range reaches no index in 1..size-1 appends nothing |
| DecayWalker.TraceAppends | scripts/data/com13wjets.cc:23-36 | whatever the vector held, the walker leaves it as a prefix and appends the same descendant list |
| DecayWalker.VisitedFrom | scripts/data/com100wjets.cc:27-31 | the daughters visited lie in the inclusive range, pass the `0 < d < size` check, and come in strictly ascending order |
| DecayWalker.TraceDecomposes | scripts/data/com100wjets.cc:27-31 | the descendants of a non-final record are those of its visited daughters, concatenated in daughter order |
| DecayWalker.TraceFindsExactlyReachable | scripts/data/com13wjets.cc:23-36 | an index is appended if and only if it is a final-state record reachable through visited daughters (an independent inductive definition) |
| EventRecord.Where | scripts/data/com13wjets.cc:86-87 | the Higgs loop visits exactly the records that pass the test, in ascending order, each once |
| EventRecord.ProductIndices | scripts/data/com13wjets.cc:98-104 | the decay products are exactly the records whose mother1 or mother2 is `j`, in ascending order, each once; under the rule of testScript5.cc also with status 91, under that of testScript4.cc by mother1 alone |
| EventRecord.Ids | scripts/data/com13wjets.cc:100 | the species codes of the selected records, position by position |
| EventRecord.Gated | scripts/data/com13wjets.cc:109 | the records kept are exactly the Higgs records with at least two decay products |
| EventRecord.GatedKeepsOrder | scripts/data/com13wjets.cc:86-109 | the record loop runs in ascending index order, and the gate keeps that order |
| JetAssociation.IndexBySpecies | scripts/data/com13wjets.cc:96-104 | every product's species code is a key, and every value is a record index |
| JetAssociation.SourceOf | scripts/data/com13wjets.cc:102 | the value under a species code is a product record of that species |
| JetAssociation.IndexBySpeciesKeepsLast | scripts/data/com13wjets.cc:102 | the value under a species code is at least every product record of that species: the last write wins |
| JetAssociation.IndexBySpeciesDistinct | scripts/data/com13wjets.cc:102 | when the product species are distinct, each code maps back to its own record |
| JetAssociation.ConstituentMap | scripts/data/com13wjets.cc:142-147 | every value is a jet ordinal below the jet count whose constituents hold the key; every constituent is a key, mapped to the last jet that lists it |
| JetAssociation.LastIn | scripts/data/com13wjets.cc:161-166 | a traced index that is present in the map, or none exactly when no traced index is present |
| JetAssociation.LastInIsLast | scripts/data/com13wjets.cc:161-166 | the overwriting loop leaves the last such index: no later traced index is in the map |
| JetAssociation.Project | scripts/data/com13wjets.cc:161-166 | the inner loop changes only the species-code key: it gets the jet of the last traced index, other than the key itself, found in the map; when there is none, nothing changes |
| JetAssociation.BackProject | scripts/data/com13wjets.cc:153-167 | the outer loop adds only species-code keys, keeps every key, leaves keys that are not product codes unchanged, and introduces no new jet ordinal |
| JetAssociation.TracesBySpecies | scripts/data/com13wjets.cc:153-156 | each product is traced from the record its species code looks up in the index map |
| JetAssociation.AsWrittenJetMap | scripts/data/com13wjets.cc:140-167 | after back-projection every map value is still a jet ordinal below the jet count |
| JetAssociation.AsWrittenEntries | scripts/data/com13wjets.cc:198-204 | one entry per product: -1 when the product's code is not a key, otherwise the key's value |
| JetAssociation.AssociatePerProduct | scripts/data/com13wjets.cc:151-166 | corrected association: -1 exactly when no descendant of that product record is a jet constituent, otherwise a jet that contains a descendant |
| JetAssociation.NoJetsNoAssociation | scripts/data/com13wjets.cc:142-147 | with no jets every product is unassociated |
| JetAssociation.UnambiguousStep | scripts/data/com13wjets.cc:153-166 | one back-projection step keeps the association invariant when species codes are distinct and not traced indices |
| JetAssociation.AsWrittenAgreesWhenUnambiguous | scripts/data/com13wjets.cc:96-204 | when product species are distinct, no species code is a constituent index and no descendant index equals a species code, the written entries equal the corrected association |
| JetFindings.SameSpeciesShareOneJet | scripts/data/com13wjets.cc:153-205 | two same-species products in different jets are both written with the second product's jet, where the corrected association gives [0, 1] |
| JetFindings.SpeciesCodeCollidesWithRecordIndex | scripts/data/com13wjets.cc:145-200 | a product whose species code equals a constituent's record index is written as that jet although none of its descendants is in a jet |
| JetFindings.TwoBodyTraces | scripts/data/com13wjets.cc:153-156 | with two same-species products, both are traced from the later record |
| JetFindings.CollidingKeys | scripts/data/com13wjets.cc:145-164 | back-projection writes into a key that already holds a constituent's jet |
| JetRows.SeparatedAsWrittenTwo | scripts/data/com13wjets.cc:198-206 | with exactly two products the `decayIndex != 1` loop writes `a;b`, the same as a join |
| JetRows.SeparatedAsWrittenTrailing | scripts/data/com13wjets.cc:192 | with three or more products the list ends with a separator |
| JetRows.SeparatedAsWrittenLosesEntries | scripts/data/com13wjets.cc:205 | with three or more entries, splitting the written list never gives the entries back |
| JetRows.ThreeEntriesExample | scripts/data/com13wjets.cc:198-206 | entries 0, 1, 2 are written as `0;12;` |
| JetRows.RowAsWritten | scripts/data/com13wjets.cc:109-207 | the row is empty exactly when there are fewer than two products; a written row ends in a newline when the event has a final-state record and in `,` when it has none |
| JetRows.Row | scripts/data/com100wjets.cc:90-180 | corrected row: same gate as the source; a written row ends in a newline with a final-state record and in `,` without one |
| JetRows.JetIdGuardHolds | scripts/data/com13wjets.cc:174 | every written entry is -1 or a jet ordinal below the jet count, so the range guard never fails |
| JetRows.RowIsJoinedColumns | scripts/data/com13wjets.cc:110-207 | the row is its eight columns joined by `,` and ended by a newline |
| JetRows.RowColumns | scripts/data/com13wjets.cc:110-207 | when no printed float holds a `,`, splitting the row on `,` gives back its eight columns |
| JetRows.RowTextRoundTrip | scripts/data/com13wjets.cc:110-207 | a row with joined lists reads back as the channel, products, mass, four reading lists and jet entries |
| JetRows.RowRoundTrip | scripts/data/com13wjets.cc:109-207 | the corrected row of a Higgs with two or more products reads back as its channel, product codes, mass and the per-product association |
| JetRows.TwoProductRowsAgree | scripts/data/com100wjets.cc:143-180 | with two products the as-written and corrected separators give the same row |
| JetRows.AsWrittenIdsUnreadable | scripts/data/com13wjets.cc:198-206 | with three or more products the `Jet_ID` column does not read back as a list of integers |
| JetRows.AsWrittenRowUnreadable | scripts/data/com13wjets.cc:170-207 | with three or more products the whole as-written row is rejected by the reader |
| JetRows.RowAgreesWhenUnambiguous | scripts/data/com13wjets.cc:96-207 | a two-product decay with distinct species and no index/code collision writes the corrected row |
| JetRows.EventRowsAgree | scripts/data/com13wjets.cc:86-207 | if every decayed Higgs of an event is such a decay, the event writes the corrected rows |
| JetRows.RowsAsWrittenCount | scripts/data/com13wjets.cc:81-88 | the run writes one row slot per decayed Higgs record (status -62) of every generated event |
| JetRows.Output | scripts/data/com13wjets.cc:74-83 | the file starts with the column header |
| ProductionChannel.ClassifyPair | scripts/data/training_smeft100.cc:44-51 | the result is always one of 0, 1, 2, 3, 6, 7; codes 4 and 5 can never be returned |
| ProductionChannel.Classify | scripts/data/training_smeft100.cc:21-22 | fewer than two ids give 0 |
| ProductionChannel.ClassifyMatchesTable | scripts/data/training_smeft100.cc:28-63 | the first-match chain equals an order-free table over the two absolute values |
| ProductionChannel.ClassifySymmetric | scripts/data/training_smeft100.cc:24-61 | swapping the two ids does not change the code |
| ProductionChannel.ClassifyIgnoresSign | scripts/data/training_smeft100.cc:24-25 | negating either id does not change the code |
| ProductionChannel.ClassifyFirstTwo | scripts/data/training_smeft100.cc:22-25 | only the first two ids matter |
| ProductionChannel.CodeTwoExactly | scripts/data/training_smeft100.cc:34-36 | code 2 exactly for two different flavours up to 6, neither of them 2 |
| ProductionChannel.CodeSevenExactly | scripts/data/training_smeft100.cc:34-61 | code 7 exactly for equal flavours up to 5, so two distinct flavours never give 7 |
| ProductionChannel.Examples | scripts/data/training_smeft100.cc:29-63 | (21,21) gives 1, (1,-3) gives 2, (1,-2) gives 3, (6,-6) gives 6, (1,-1) gives 7, (21,1) and (11,-11) give 0 |
| LheScan.ReadIntRoundTrip | scripts/data/training_smeft100.cc:88 | `iss >> id` reads back any integer written in decimal, followed by a non-digit |
| LheScan.IncomingLine | scripts/data/training_smeft100.cc:88-91 | a line `<id> -1 ...` contributes its id |
| LheScan.Push | scripts/data/training_smeft100.cc:89-91 | one line adds at most one id and keeps the earlier ones |
| LheScan.StatusLine | scripts/data/training_smeft100.cc:84-91 | a line `<id> <status> ...` is an incoming parton exactly when the status is -1 |
| LheScan.PushStatusLine | scripts/data/training_smeft100.cc:88-91 | such a line appends its id when the status is -1 and leaves the list unchanged otherwise |
| LheScan.Collect | scripts/data/training_smeft100.cc:83-93 | the inner loop keeps at most two ids, keeps the ones it started with, and consumes no more lines than it has |
| LheScan.Scan | scripts/data/training_smeft100.cc:77-98 | every recorded channel is a classifier code, and there is at most one per `<event>` line |
| LheScan.ScanSkips | scripts/data/training_smeft100.cc:77-78 | lines without `<event>` are passed over |
| LheScan.CollectBody | scripts/data/training_smeft100.cc:83-93 | inside an event block the loop collects the first two incoming ids and stops at `</event>` |
| LheScan.ScanOneBlock | scripts/data/training_smeft100.cc:78-97 | one event block, with its header line skipped, records exactly one channel: that of its first two incoming ids |
| LheScan.ScanBlocks | scripts/data/training_smeft100.cc:67-103 | a file of well-formed blocks between a prelude and an epilogue without `<event>` records one channel per block, in order |
| SmeftTraining.CountAbove | scripts/data/training_smeft100.cc:191-196 | the multiplicity never exceeds the number of jets |
| SmeftTraining.JetMultiplicity | scripts/data/training_smeft100.cc:191-196 | the loop counts the jets above the 30.0 cut, at most the number of jets |
| SmeftTraining.CountAboveAll | scripts/data/training_smeft100.cc:193 | the count is the number of jets exactly when every jet is above the cut |
| SmeftTraining.CountAboveNone | scripts/data/training_smeft100.cc:193 | the count is zero exactly when no jet is above the cut |
| SmeftTraining.MultiplicityExample | scripts/data/training_smeft100.cc:193 | a jet of exactly 30.0 is not counted |
| SmeftTraining.HiggsRow | scripts/data/training_smeft100.cc:174-205 | the row is empty exactly when there are fewer than two products, and otherwise ends in a newline |
| SmeftTraining.HiggsRecords | scripts/data/training_smeft100.cc:158-159 | exactly the records of species 25, 35, 36 or 37 with status -62 |
| SmeftTraining.RowColumns | scripts/data/training_smeft100.cc:199-204 | splitting the row on `,` gives its seven columns |
| SmeftTraining.RowTextRoundTrip | scripts/data/training_smeft100.cc:199-204 | a row reads back as Higgs code, channel, product codes, mass, pT, rapidity and multiplicity |
| SmeftTraining.HiggsRowDecodes | scripts/data/training_smeft100.cc:164-204 | the row of a record with two or more products reads back as that record's data |
| SmeftTraining.RowsAtGated | scripts/data/training_smeft100.cc:158-174 | the record loop writes one row per Higgs-family record with at least two products, in record order |
| SmeftTraining.RowsAtDecode | scripts/data/training_smeft100.cc:158-205 | each of those rows reads back as its record's data |
| SmeftTraining.EventRowsDecode | scripts/data/training_smeft100.cc:158-204 | every row of an event reads back with a Higgs-family code, the event's channel and at least two products |
| SmeftTraining.AttemptRows | scripts/data/training_smeft100.cc:153-162 | the channel lookup fails exactly when the event was generated, has a Higgs-family record, and its attempt number is past the channel list |
| SmeftTraining.Tried | scripts/data/training_smeft100.cc:147-154 | the loop makes at most 25000 attempts, in order |
| SmeftTraining.Run | scripts/data/training_smeft100.cc:122-151 | an empty channel list ends with exit code 1 and no rows; otherwise the file starts with the header and the exit code is 0 |
| SmeftTraining.RowsFromAligned | scripts/data/training_smeft100.cc:153-162 | while the channel list covers every attempt, each event's rows use its own channel |
| SmeftTraining.UndefinedPastChannels | scripts/data/training_smeft100.cc:159-162 | a Higgs-bearing event past the end of the channel list leaves the run without a defined output |
| SmeftTraining.RunDefined | scripts/data/training_smeft100.cc:147-205 | with enough channels the run writes the header then each event's rows with its own channel |
| SubsetMasses.SelectionExactly | scripts/data/thirtytev6.03.cc:84-88 | a selection is exactly the set bits of the mask below n, in strictly ascending order |
| SubsetMasses.SelectedBits | scripts/data/thirtytev6.03.cc:83-88 | the inner loop builds that selection |
| SubsetMasses.MasksExactly | scripts/data/thirtytev6.03.cc:82-92 | the masks recorded are exactly those with at least two set bits, in ascending order |
| SubsetMasses.MassesStep | scripts/data/thirtytev6.03.cc:82-93 | one outer iteration appends a mass exactly when the mask selects two or more products |
| SubsetMasses.RecordMasses | scripts/data/thirtytev6.03.cc:79-93 | the loop records one mass per subset of size at least two, 2^n - n - 1 in all |
| SubsetMasses.RecordedCount | scripts/data/thirtytev6.03.cc:89-92 | there are 2^n - n - 1 recorded subsets |
| SubsetMasses.ThreeProducts | scripts/data/thirtytev6.03.cc:82-92 | for three products the masks recorded are 3, 5, 6, 7 |
| SubsetMasses.TwoProducts | scripts/data/thirtytev6.03.cc:82-92 | for two products only mask 3 is recorded |
| SubsetMasses.ThreeProductMasses | scripts/data/thirtytev6.03.cc:82-93 | for three products the masses are of {0,1}, {0,2}, {1,2}, {0,1,2}, in that order |
| SubsetMasses.HiggsRow | scripts/data/thirtytev6.03.cc:70-99 | the row is empty exactly when there are fewer than two products |
| SubsetMasses.RowTextRoundTrip | scripts/data/thirtytev6.03.cc:71-99 | a row reads back as code, product list and mass list |
| SubsetMasses.HiggsRowDecodes | scripts/data/thirtytev6.03.cc:62-99 | the row of a record reads back as its codes and the masses of all subsets of size at least two, 2^n - n - 1 of them |
| SubsetMasses.EventRowsDecode | scripts/data/thirtytev6.03.cc:53-100 | an event writes one row per decayed Higgs (25, status -62) with two or more products, and each reads back as that record's data |
| SubsetMasses.RowsCount | scripts/data/thirtytev6.03.cc:49-100 | the run writes one row per such record across the generated events |
| SubsetMasses.Output | scripts/data/thirtytev6.03.cc:46-50 | the file starts with the column header |
| PairListing.PairRow | scripts/data/allChannels.cc:81 | row `a` of the inner loop is (a, a+1) to (a, n-1) |
| PairListing.PairsCount | scripts/data/allChannels.cc:80-85 | the two loops visit n(n-1)/2 pairs |
| PairListing.PairsExactly | scripts/data/allChannels.cc:80-85 | the pairs visited are exactly the pairs a < b < n, each once, in lexicographic order |
| PairListing.PairsOfThree | scripts/data/allChannels.cc:80-85 | three products give (0,1), (0,2), (1,2) |
| PairListing.ListPairs | scripts/data/allChannels.cc:80-85 | the nested loops produce those pairs |
| PairListing.ListLine | scripts/data/allChannels.cc:71-77 | the decay list is the codes joined with `,` and ended by a newline; an empty list writes nothing |
| PairListing.HiggsBlock | scripts/data/allChannels.cc:68-85 | every block starts with `ProductionChannel: ` |
| PairListing.BlockLines | scripts/data/allChannels.cc:68-85 | with products and newline-free masses, the block's lines are the header with the comma-joined codes, then for the i-th pair (a, b) in loop order `InvMass_<ids[a]>_<ids[b]>: <mass>`, then nothing after the last newline |
| PairListing.NoProductsNoNewline | scripts/data/allChannels.cc:68-77 | a decayed Higgs with no products leaves its line unterminated |
| PairListing.DiphotonBlock | scripts/data/allChannels.cc:68-85 | H to two photons writes `22,22` and the single line `InvMass_22_22` |
| PairListing.DecayedHiggs | scripts/data/allChannels.cc:51-53 | exactly the species-25, status -62 records, ascending |
| PairListing.EventBlocks | scripts/data/allChannels.cc:51-86 | one block per decayed Higgs, with no two-product gate |
| PairListing.Output | scripts/data/allChannels.cc:44-91 | the file is the blocks of the first 100000 attempts, then a blank line and `TotalHiggsDecays: ` with the number of blocks written |
| PairListing.TotalCountsBlocks | scripts/data/allChannels.cc:54-91 | the printed total equals the number of blocks written |
| HiggsCounters.RecordTally | scripts/testScripts/testScript5.cc:44-70 | each species-25 record writes one line and adds at most one to the total; the diphoton count never exceeds the total |
| HiggsCounters.DiphotonCounted | scripts/testScripts/testScript5.cc:46-59 | the diphoton count grows exactly for a counted record whose products are exactly [22, 22], in both counters |
| HiggsCounters.TotalIsSelected | scripts/testScripts/testScript5.cc:45-47 | the total is the number of species-25 records whose status is -62, -22 or -44 |
| HiggsCounters.OneLinePerRecord | scripts/testScripts/testScript5.cc:62-70 | every species-25 record writes exactly one line, counted or not |
| HiggsCounters.FilteredCountsFewer | scripts/testScripts/testScript4.cc:48-49 | the unfiltered counter counts every species-25 record, one line each, and never fewer than the filtered one |
| HiggsCounters.DecLineRoundTrip | scripts/testScripts/testScript5.cc:62-66 | a `Higgsdec` line reads back as the status and the product codes |
| HiggsCounters.ProductsLineRoundTrip | scripts/testScripts/testScript4.cc:67-71 | a `Higgs Decay Products:` line reads back as the product codes |
| HiggsCounters.ElseLineIsNotDec | scripts/testScripts/testScript5.cc:68-69 | a `Higgselse` line is never read as a counted line |
| HiggsCounters.RunTally | scripts/testScripts/testScript5.cc:40-72 | over all attempts the diphoton count never exceeds the total |
| HiggsCounters.Output | scripts/testScripts/testScript5.cc:40-78 | the file is the record lines of the first 1000 attempts, in order, followed by the summary, which opens with a blank line and `Total` |
| HiggsCounters.Ratio | scripts/testScripts/testScript5.cc:76 | no value exactly when the total is 0 (both counters then divide 0 by 0); otherwise a value in [0, 1] |
| ParamCard.Words | scripts/data/coefficientUpdate.py:21 | `split()` yields non-empty words with no whitespace |
| ParamCard.WordsOfJoin | scripts/data/coefficientUpdate.py:21-26 | splitting a space-joined line with a newline gives back its words |
| ParamCard.RewriteWords | scripts/data/coefficientUpdate.py:21-26 | a rewritten line has the same words except the second, which becomes the coefficient when the first word is digits naming a key; otherwise the words are unchanged |
| ParamCard.RewriteIdempotent | scripts/data/coefficientUpdate.py:21-26 | rewriting a rewritten line changes nothing |
| ParamCard.RewriteKeepsHeaders | scripts/data/coefficientUpdate.py:15-26 | a rewrite never makes or unmakes a `BLOCK SMEFT` line |
| ParamCard.HeaderFirstWord | scripts/data/coefficientUpdate.py:15-22 | a header line's first word starts with `B`, so it is never a digit line |
| ParamCard.CounterStep | scripts/data/coefficientUpdate.py:15-27 | a header sets the flag without using the window; a window line advances the counter by one |
| ParamCard.UpdateWilsonCoefficients | scripts/data/coefficientUpdate.py:14-29 | one output line per input line; lines in the window are rewritten, all others copied |
| ParamCard.BeforeHeaderUnchanged | scripts/data/coefficientUpdate.py:15-29 | lines before the first `BLOCK SMEFT` are copied unchanged |
| ParamCard.HeadersCopied | scripts/data/coefficientUpdate.py:15-18 | header lines are copied verbatim |
| ParamCard.WindowCountIsCapped | scripts/data/coefficientUpdate.py:20-27 | the number of rewrite candidates so far is the capped count of non-header lines after the first header |
| ParamCard.AtMostNineRewritten | scripts/data/coefficientUpdate.py:20-27 | at most nine lines are ever rewrite candidates |
| ParamCard.UpdateIdempotent | scripts/data/coefficientUpdate.py:14-29 | running the rewriter twice with the same coefficients gives the same file as running it once |
| ParamCard.Generate | scripts/data/coefficientUpdate.py:3-4 | the keys are exactly 1 to the count, each with its drawn value |
| Text.IntToStringRoundTrip | scripts/data/com13wjets.cc:113 | the decimal text of an integer reads back as that integer |
| Text.SplitJoin | scripts/data/com13wjets.cc:112-115 | a `;`-joined list of items without `;` splits back into the items |
| Text.IntListRoundTrip | scripts/data/training_smeft100.cc:200-203 | a joined list of integers reads back as the same list |

## Left out

- Event generation and `pythia.info.code()`. The event record, the process code and generation failure are inputs: an attempt is `Failed` or carries its event.
- Jet clustering and `sorted_by_pt`. The jets are an input sequence in pT order, each with its constituent record indices and its printed readings.
- Floating-point kinematics: `invariantMass`, `mCalc`, pT, rapidity, eta, phi and mass. These are the text the program prints, given by function parameters or jet fields. The `.6e` coefficient text is likewise a parameter, and `WordValues` only asks that it be one word.
- The printed form of the diphoton ratio. `HiggsCounters.Output` takes it as a function of the ratio.
- Command-line and file handling: argument counts, failed opens, the stdout checkpoints, and reading and writing the card. Files are sequences of lines or one string.
- `save_coefficients` (coefficientUpdate.py:31-33). It only writes a JSON file, and `json` is never imported there, so it would raise `NameError`.
- The random draw in `generate_random_coefficients`. `Generate` takes the drawn values as a parameter and models only the key set.
- `totalHCount` in com13wjets.cc, com100wjets.cc, thirtytev6.03.cc and training_smeft100.cc. It is incremented but never printed.
- The `jetIDsWithDecayProducts` set. It is filled but never read.
- DecayWalker.Trace: termination on a cyclic record is not modelled. The walker requires that every visited daughter index exceed its parent (`DaughtersForward`).
- SubsetMasses.RecordMasses: requires n < 31, because `1 << n` on an `int` is not modelled for larger n.
- Integer widths in general: `int` and `size_t` are unbounded here.
- SmeftTraining.AttemptRows: when `productionChannels[i]` is past the end of the vector, the C++ behaviour is undefined. The model gives no output (`None`) rather than guessing.
- LheScan.Collect: when `iss >> id` fails, the source leaves `status` uninitialised and reads it anyway. The model treats such a line as not incoming. A failed read of the status alone sets it to 0, which the model matches.
- LheScan.ReadInt: reads ASCII digits only, with leading C-locale whitespace and an optional sign (`+` or `-`). Overflow is not modelled.
- ParamCard.RewriteWords: the model accepts ASCII digits only. `str.isdigit` also accepts other Unicode digits. `int()` reads some of them (other scripts' decimal digits) and raises `ValueError` on others (superscripts such as `²`). That exception is not caught at scripts/data/coefficientUpdate.py:22-23, so the script stops. Neither the non-ASCII path nor the exception is modelled. Whitespace for `split()` follows Python's `str.isspace` set.
- SmeftTraining.RowsAt: its own contract states only the row count bound. What the rows hold is stated by `SmeftTraining.RowsAtGated` and `SmeftTraining.RowsAtDecode`.
- HiggsCounters.Output: its contract states the record lines and where the summary starts. The text of the summary lines, and the count and ratio they print, are not stated; the ratio's printed form is opaque anyway. scripts/testScripts/testScript4.cc:43-79 writes the same shape with its own summary labels.
- JetRows.Output, SubsetMasses.Output: their own contracts state only the header. The rows come from the event lemmas (`JetRows.RowsAsWrittenCount`, `SubsetMasses.RowsCount`, `SubsetMasses.EventRowsDecode`).
- The other analysis scripts, the model-training and plotting scripts, the servers, and the test scripts that only dump records. They are outside this core.

## Findings

| source | as written | input that shows it | evidently intended | confidence | as-written member | corrected member |
|---|---|---|---|---|---|---|
| scripts/data/com13wjets.cc:192 (also 205, and com100wjets.cc:165, 178) | `if (decayIndex != 1) out << ";"` writes a separator after every entry except the second | three products with jet entries 0, 1, 2 give `0;12;`, which reads back as `0`, `12` and an empty entry | a `;` between consecutive entries, as the decay-product list of the same row does (com13wjets.cc:114) | not executed | JetRows.SeparatedAsWrittenLosesEntries, JetRows.ThreeEntriesExample, JetRows.AsWrittenRowUnreadable | JetRows.RowRoundTrip (on JetRows.Row) |
| scripts/data/com13wjets.cc:154 (the maps of lines 102, 145 and 164) | the association is keyed by species code: `particleIdToIndexMap` keeps one record per species, and back-projection writes species codes into the map keyed by record index | a Higgs decaying to two products of the same species, each in its own jet, writes both as the second jet; a product whose species code equals a constituent's record index inherits that jet | one association per decay product record, from its own final-state descendants | not executed | JetFindings.SameSpeciesShareOneJet, JetFindings.SpeciesCodeCollidesWithRecordIndex | JetAssociation.AssociatePerProduct, with JetAssociation.AsWrittenAgreesWhenUnambiguous and JetRows.RowAgreesWhenUnambiguous |
