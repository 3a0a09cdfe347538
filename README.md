# CodingTool low-weight search, modelled in Dafny

This project models the core of CodingTool, a C++ library that searches
linear binary codes for low-weight code words with the Canteaut–Chabaud
algorithm. It also proves properties of that model. The model covers:

- **CodeWord**: a bit string packed MSB-first into 64-bit words, with a
  free-bit offset in the last word and a cached Hamming weight.
- **CodeMatrix**: a generator matrix held as a list of code words.
- **HammingWeight**: the byte-table popcount and the weighted weight.
- **RandomNumberGenerator**: random integers and draws without repetition.
- **Parameters** and **InputHandler**: the settings map and the
  command-line parser.
- **LowWeightSearch**: GaussMod2, DeltaGauss, BuildMinVector,
  RandomPermuteColumns, CodeShortening, CreateGaussMatrix,
  CheckParameters and the CanteautChabaud search itself.
- The SHA-1 message-expansion examples: `SHA1ME`, `BuildFunction` and
  the `allinone` shortening run.

How the model is built:

- Bits are `seq<bool>`. A 64-bit word is a `Word`, a `seq<bool>` of
  length 64, most significant bit first. The C++ shifts, masks and casts
  are written out on these sequences in module `Words`.
- `CodeWord`, `CodeMatrix`, `Parameters`, `InputHandler`,
  `RandomNumberGenerator` and `LowWeightSearch` are classes. Their
  methods update the fields in place, as the source does.
- Every `CodeWord` method is tied to the abstraction `Bits()`, which is
  the bits held. A `CodeWord` is `Valid()` when its words, offset and
  weight cache agree.

What the search is proved to do:

- Every word it accepts passes the check function.
- Each accepted word has a strictly lower score than the one before.
- Once the reduced generator is systematic, every accepted word is a
  code word of the input generator.
- The words written out are the accepted ones, in order, and the last
  one is returned.
- It stops early only at a score at or below MINIMUM.
- It hangs only in the first round, and only on a Z without a 1.
- It is undefined exactly where the C++ is (`SearchUndefined`).

The SHA-1 part proves three things:

- The generator's code is exactly the set of expanded messages.
- The expansion is linear.
- With shortening on, any code word of the shortened matrix re-expands
  to a zero word 59, which is what `allinone` checks.

The `random` source of the C++ generator is a parameter of the model: an
arbitrary stream of 32-bit outputs. Its seed is a constructor argument.

## Model

| member | source | states |
|---|---|---|
| CodeWords.CodeWord.constructor | CodingTool/src/CodeWord.cpp:26-28 | a new code word is valid and holds no bits |
| CodeWords.CodeWord.GetHammingWeight | CodingTool/src/CodeWord.cpp:35-37 | the cached weight is the number of set bits of the word |
| CodeWords.CodeWord.GetWeightedHammingWeight | CodingTool/src/CodeWord.cpp:40-50 | as written: the sum, over the words, of the word's weighted weight, where vWeights is indexed by the word number (WordWeighted) |
| CodeWords.CodeWord.GetBitWeightedHammingWeight | CodingTool/src/CodeWord.cpp:40-50 | as the declaration documents it: the sum of vWeights[i] over the set bits i |
| CodeWords.CodeWord.GetLength | CodingTool/src/CodeWord.cpp:53-55 | the number of bits held, which is 64 per word minus the offset |
| CodeWords.CodeWord.GetLength64 | CodingTool/src/CodeWord.cpp:58-60 | the number of words, which is the bit count rounded up to whole words |
| CodeWords.CodeWord.GetDataBool | CodingTool/src/CodeWord.cpp:63-69 | every bit of every word: the bits held followed by `offset` zero padding bits |
| CodeWords.CodeWord.GetDataUInt32 | CodingTool/src/CodeWord.cpp:72-84 | two 32-bit halves per word, the high half first |
| CodeWords.CodeWord.GetDataUInt64 | CodingTool/src/CodeWord.cpp:87-89 | the words, which laid end to end are the bits followed by clear padding |
| CodeWords.CodeWord.AtBool | CodingTool/src/CodeWord.cpp:92-97 | bit i for i inside the bits; false inside the padding |
| CodeWords.CodeWord.At64 | CodingTool/src/CodeWord.cpp:123-127 | word i, the last one shifted right by the offset: the bits of word i right-aligned |
| CodeWords.CodeWord.SetBool | CodingTool/src/CodeWord.cpp:130-142 | only bit i changes, to b; the cache and validity are kept |
| CodeWords.CodeWord.Set64 | CodingTool/src/CodeWord.cpp:168-172 | word i becomes d and the offset stays |
| CodeWords.CodeWord.EraseBool | CodingTool/src/CodeWord.cpp:175-193 | the bits become the old bits with bit k removed (nothing is removed for a k in the padding) |
| CodeWords.CodeWord.PushSkipping | CodingTool/src/CodeWord.cpp:183-190 | EraseBool's inner loop pushes the word's bits except bit k |
| CodeWords.CodeWord.Erase64 | CodingTool/src/CodeWord.cpp:220-223 | corrected: word i and its bits are removed, and the offset is reset when the last word goes |
| CodeWords.Erase64AsWritten | CodingTool/src/CodeWord.cpp:220-223 | as written: the word is removed and the offset is kept |
| CodeWords.Erase64AsWrittenBreaksCache | CodingTool/src/CodeWord.cpp:220-223 | as written, erasing the last word of a 65-bit word of ones leaves a 1-bit word with 64 cached ones and padding that is not clear |
| CodeWords.CodeWord.PushBool | CodingTool/src/CodeWord.cpp:226-240 | b becomes the new last bit |
| CodeWords.PushStep | CodingTool/src/CodeWord.cpp:226-240 | one push, into the last word or into a new word, keeps the representation well formed and the cache right |
| CodeWords.CodeWord.Push32 | CodingTool/src/CodeWord.cpp:243-254 | the 32 bits of d are appended, most significant first |
| CodeWords.CodeWord.Push64 | CodingTool/src/CodeWord.cpp:257-266 | the 64 bits of d are appended, most significant first |
| CodeWords.CodeWord.PopBool | CodingTool/src/CodeWord.cpp:270-277 | as written: the last bit is dropped when the offset was below 63; when the last word held one bit, the bits become the full words before it followed by 64 zeros |
| CodeWords.PopBoolAsWrittenGrows | CodingTool/src/CodeWord.cpp:270-277 | on a last word holding one bit, PopBool as written grows the word by 63 bits |
| CodeWords.CodeWord.PopBoolCorrected | CodingTool/src/CodeWord.cpp:270-277 | corrected: the last bit is removed, and a last word left empty is dropped |
| CodeWords.CodeWord.Clear | CodingTool/src/CodeWord.cpp:314-319 | the word becomes the empty word |
| CodeWords.CodeWord.Assign | CodingTool/src/CodeWord.cpp:393-399 | operator=: words, offset and bits are copied from the other word |
| CodeWords.CodeWord.XorAssign | CodingTool/src/CodeWord.cpp:402-412 | operator^= on words of equal length: the bits become the bitwise XOR |
| CodeWords.CodeWord.XorWordsInto | CodingTool/src/CodeWord.cpp:404-410 | the loop of operator^=: the words become the word-wise XOR and the weight is recounted |
| CodeWords.CodeWord.XorOf | CodingTool/src/CodeWord.cpp:415-417 | operator^: a fresh word holding the XOR, with neither operand changed |
| CodeWords.CodeWord.Equals | CodingTool/src/CodeWord.cpp:420-426 | operator== on words of equal length is true exactly when the bits agree |
| CodeWords.Canonical | CodingTool/src/CodeWord.cpp:420-426 | the bits determine the words and the offset of a well-formed word, so comparing At64 word by word is comparing bits |
| CodeWords.WeightIndexedByWord | CodingTool/src/CodeWord.cpp:40-50 | on the two-bit word 01 with weights [1, 5], as written the weighted weight is 1, while the per-bit one is 5 |
| CodeMatrices.CodeMatrix.constructor | CodingTool/src/CodeMatrix.cpp:27-28 | a new matrix has no rows |
| CodeMatrices.CodeMatrix.Build | CodingTool/src/CodeMatrix.cpp:34-38 | the matrix is cleared, then f(0) … f(dim-1) are offered to AddRow |
| CodeMatrices.BuiltUniform | CodingTool/src/CodeMatrix.cpp:34-38 | when every f(i) has the length of f(0), Build keeps every row |
| CodeMatrices.CodeMatrix.AddRow | CodingTool/src/CodeMatrix.cpp:41-48 | a row is appended when the matrix is empty or the row has the length of row 0; otherwise the matrix is unchanged |
| CodeMatrices.CodeMatrix.GetSubMatrix | CodingTool/src/CodeMatrix.cpp:51-64 | a fresh matrix whose entry (i, j) is entry (vRows[i], vCols[j]) |
| CodeMatrices.CodeMatrix.At64 | CodingTool/src/CodeMatrix.cpp:77-79 | word c of row r; read big-endian it is the value of the columns it covers |
| CodeMatrices.CodeMatrix.AtBool | CodingTool/src/CodeMatrix.cpp:67-69 | entry (r, c), the bit c of row r; on a valid matrix c is then below the column count |
| CodeMatrices.CodeMatrix.SetBool | CodingTool/src/CodeMatrix.cpp:82-84 | only entry (r, c) changes, to b |
| CodeMatrices.CodeMatrix.DeleteRow | CodingTool/src/CodeMatrix.cpp:97-100 | row r is removed and the others keep their order |
| CodeMatrices.CodeMatrix.DeleteColumn | CodingTool/src/CodeMatrix.cpp:103-107 | column c is removed from every row, so there is one column fewer |
| CodeMatrices.DropColumnShifts | CodingTool/src/CodeMatrix.cpp:103-107 | the columns before c stay, and the later ones move down by one |
| CodeMatrices.CodeMatrix.GetColumns | CodingTool/src/CodeMatrix.cpp:115-120 | the length of row 0, or 0 without rows, which is the length of every row |
| CodeMatrices.CodeMatrix.GetColumns64 | CodingTool/src/CodeMatrix.cpp:123-128 | the columns rounded up to whole 64-bit words |
| CodeMatrices.CodeMatrix.GetRows | CodingTool/src/CodeMatrix.cpp:110-112 | the number of rows held |
| CodeMatrices.CodeMatrix.Row | CodingTool/src/CodeMatrix.cpp:227-230 | a read through operator[] gives row i itself |
| CodeMatrices.CodeMatrix.IsSystematic | CodingTool/src/CodeMatrix.cpp:189-203 | true exactly when there are at most as many rows as columns and the leading square block is the identity |
| CodeMatrices.CodeMatrix.Assign | CodingTool/src/CodeMatrix.cpp:221-224 | operator=: the rows of the other matrix are copied |
| CodeMatrices.CodeMatrix.SetRow | CodingTool/src/CodeMatrix.cpp:227-230 | a write through operator[] replaces row i by a row of the same length |
| HammingWeights.HammingWeight | CodingTool/src/HammingWeight.cpp:27-35 | the eight byte-table lookups add up to the number of set bits of the word, at most 64 |
| HammingWeights.ByteTable | CodingTool/includes/HammingWeight.h:34-67 | the hwt entry a byte indexes is the byte's number of set bits |
| HammingWeights.Hwt | CodingTool/includes/HammingWeight.h:34-67 | every entry of hwt is at most 8 |
| HammingWeights.HwtIsWeight | CodingTool/includes/HammingWeight.h:34-67 | every entry hwt[b] is the weight of b's 8-bit binary form, at most 8 |
| HammingWeights.HwtComplement | CodingTool/includes/HammingWeight.h:34-67 | hwt[b] + hwt[255 - b] == 8 |
| HammingWeights.CountBytes | CodingTool/src/HammingWeight.cpp:32-33 | the weight of a word is the sum of the weights of its eight bytes |
| HammingWeights.WeightedHammingWeight | CodingTool/src/HammingWeight.cpp:38-47 | the sum of vWeights[i] over the set bits i, counted from the most significant |
| HammingWeights.WeightedUnit | CodingTool/src/HammingWeight.cpp:38-47 | with every weight 1 the weighted weight is the plain weight |
| HammingWeights.WeightedComplement | CodingTool/src/HammingWeight.cpp:38-47 | the weighted weights of a word and of its complement add up to the total weight |
| RandomNumbers.RandomNumberGenerator.constructor | CodingTool/src/RandomNumberGenerator.cpp:27-37 | the seed is stored and the stream is at its start |
| RandomNumbers.RandomNumberGenerator.GetSeed | CodingTool/src/RandomNumberGenerator.cpp:78-82 | the seed of the constructor, which no draw changes |
| RandomNumbers.RandomNumberGenerator.GetRandomPosInteger | CodingTool/src/RandomNumberGenerator.cpp:45-51 | two outputs combined into 64 bits, reduced modulo n, so below n; it consumes two outputs |
| RandomNumbers.Draw | CodingTool/src/RandomNumberGenerator.cpp:45-51 | two 32-bit outputs assembled into a value below 2^64 |
| RandomNumbers.RandomNumberGenerator.GetRandomPosVector | CodingTool/src/RandomNumberGenerator.cpp:54-76 | ln distinct values from [lb, ub], or all of them when there are at most ln; ub is taken only at the step that empties the candidates |
| RandomNumbers.MoveCandidate | CodingTool/src/RandomNumberGenerator.cpp:70-72 | moving a drawn candidate behind the drawn values introduces no repetition |
| ParameterSets.Parameters.constructor | CodingTool/src/Parameters.cpp:35-37 | the three maps start empty |
| ParameterSets.Parameters.AddIntegerParameter | CodingTool/src/Parameters.cpp:43-47 | the value and the help text are stored under the name |
| ParameterSets.Parameters.AddStringParameter | CodingTool/src/Parameters.cpp:50-54 | the value and the help text are stored under the name |
| ParameterSets.Parameters.GetIntegerParameter | CodingTool/src/Parameters.cpp:57-59 | the stored value; an absent name is inserted as 0, which is returned |
| ParameterSets.Parameters.GetStringParameter | CodingTool/src/Parameters.cpp:62-64 | the stored value; an absent name is inserted as "" |
| ParameterSets.Parameters.GetHelpText | CodingTool/src/Parameters.cpp:67-69 | the stored text; an absent name is inserted as "" |
| ParameterSets.Parameters.SetIntegerParameter | CodingTool/src/Parameters.cpp:72-74 | only the integer value of the name changes |
| ParameterSets.Parameters.SetStringParameter | CodingTool/src/Parameters.cpp:77-79 | only the string value of the name changes |
| ParameterSets.Parameters.SetHelpText | CodingTool/src/Parameters.cpp:82-84 | only the help text of the name changes |
| ParameterSets.ReadOneMore | CodingTool/src/Parameters.cpp:57-59 | reading one more name gives the map in which that name was read with the others; a second read changes nothing; present names keep their values |
| ParameterSets.DefaultNamesDistinct | CodingTool/src/Parameters.cpp:26-33 | the eight setting names are pairwise different |
| InputHandlers.InputHandler.constructor | CodingTool/src/InputHandler.cpp:26-43 | the eight defaults are added with their values and help texts |
| InputHandlers.InputHandler.ReadArgument | CodingTool/src/InputHandler.cpp:55-91 | one pass of the loop: a known name takes the next argument as its value, and reports whether the argument is rejected and where the next name is |
| InputHandlers.InputHandler.ParseSettings | CodingTool/src/InputHandler.cpp:50-96 | the parameters and the result are those of the reference parse Parse from argument 1; with no argument nothing changes and the result is false |
| InputHandlers.ParseInt | CodingTool/src/InputHandler.cpp:69-70 | `stream >> int`: the value is always within the range of int |
| InputHandlers.ParseIntDecimal | CodingTool/src/InputHandler.cpp:69-70 | every int written in decimal is read back as itself |
| InputHandlers.ToUint64 | CodingTool/src/InputHandler.cpp:71 | the int is stored modulo 2^64 |
| InputHandlers.ParseRejects | CodingTool/src/InputHandler.cpp:58-91 | "-h", an unknown name, or a name without a value makes the result true |
| InputHandlers.ParseAccepts | CodingTool/src/InputHandler.cpp:58-91 | conversely, the result is false when no argument read as a name is rejected |
| InputHandlers.ParseKeepsNames | CodingTool/src/InputHandler.cpp:63-86 | parsing adds no parameter and removes none |
| InputHandlers.ParseLastName | CodingTool/src/InputHandler.cpp:68-84 | a name given last is rejected and changes no value |
| InputHandlers.ParseUntouched | CodingTool/src/InputHandler.cpp:63-86 | a parameter not named from argument i on keeps its value |
| InputHandlers.ParseSetsInteger | CodingTool/src/InputHandler.cpp:67-72 | an integer parameter named and followed by a value gets that value read as int and wrapped to uint64_t, unless it is named again later |
| InputHandlers.ParseSetsString | CodingTool/src/InputHandler.cpp:80-83 | a string parameter named and followed by a value gets that value, unless it is named again later |
| LowWeightSearches.LowWeightSearch.constructor | CodingTool/src/LowWeightSearch.cpp:28-31 | no check function, no weights, no combinations, and the generator seeded |
| LowWeightSearches.LowWeightSearch.SetCheckFunction | CodingTool/src/LowWeightSearch.cpp:492-494 | only the check function changes |
| LowWeightSearches.LowWeightSearch.SetWeightVector | CodingTool/src/LowWeightSearch.cpp:562-564 | only the weight vector changes |
| LowWeightSearches.LowWeightSearch.CheckParameters | CodingTool/src/LowWeightSearch.cpp:356-366 | true exactly when sigma is at most 30; "-s" is inserted as 0 when absent |
| LowWeightSearches.LowWeightSearch.CreateGaussMatrix | CodingTool/src/LowWeightSearch.cpp:504-518 | dim unit rows of dim rounded up to whole 64-bit words |
| LowWeightSearches.LowWeightSearch.GetGaussCombinations | CodingTool/src/LowWeightSearch.cpp:521-523 | the combination rows themselves; their width is the recorded combination width (0 without rows) |
| LowWeightSearches.LowWeightSearch.GetCombinedRows | CodingTool/src/LowWeightSearch.cpp:498-501 | the rows of Z combined by the last accepted word |
| LowWeightSearches.LowWeightSearch.GaussMod2 | CodingTool/src/LowWeightSearch.cpp:369-439 | as written: the column vector is a permutation and the rows stay in the span of the input through it; on rows of whole words a reported full rank gives a systematic matrix, a reported rank defect leaves a zero row, and independent input rows are always reported full rank |
| LowWeightSearches.LowWeightSearch.GaussMod2Corrected | CodingTool/src/LowWeightSearch.cpp:369-439 | corrected: for any length, a reported full rank gives a systematic matrix, a reported defect leaves a zero row, independent input rows are always reported full rank, and the combination rows go on recording the rows |
| LowWeightSearches.LowWeightSearch.Reduce | CodingTool/src/LowWeightSearch.cpp:385-436 | the loop over the columns keeps the permutation, the span, the combinations (when exchanged) and the unit columns; with an exact test or whole words, full rank ends systematic, a defect leaves a zero row, and independent rows never give a defect |
| LowWeightSearches.LowWeightSearch.ReduceColumn | CodingTool/src/LowWeightSearch.cpp:388-435 | one column: the bookkeeping is kept, and a pivot found adds column j to the unit columns |
| LowWeightSearches.LowWeightSearch.FindPivot | CodingTool/src/LowWeightSearch.cpp:390-425 | the row search, then the column search, as PivotSearch describes |
| LowWeightSearches.LowWeightSearch.EliminateColumn | CodingTool/src/LowWeightSearch.cpp:427-435 | every other row whose pivot test succeeds gets row j added, in the matrix and in the combinations |
| LowWeightSearches.FindPivotRow | CodingTool/src/LowWeightSearch.cpp:391-402 | the first row at or below j whose pivot test succeeds; none when no row passes |
| LowWeightSearches.FindPivotColumn | CodingTool/src/LowWeightSearch.cpp:407-421 | the first column at or after j with a 1 in row j; none when there is no such column |
| LowWeightSearches.ExchangeRows | CodingTool/src/LowWeightSearch.cpp:395-397 | rows a and b are exchanged |
| LowWeightSearches.ExchangeColumns | CodingTool/src/LowWeightSearch.cpp:410-414 | columns a and b of every row are exchanged |
| LowWeightSearches.ColumnKeeps | CodingTool/src/LowWeightSearch.cpp:388-435 | one pass keeps the bookkeeping; with an exact test or whole words a pivot adds a unit column |
| LowWeightSearches.PivotFound | CodingTool/src/LowWeightSearch.cpp:393-435 | after a pivot, row j has its 1 in column j, and the elimination selects exactly the other rows with a 1 there |
| LowWeightSearches.CombosNotExchanged | CodingTool/src/LowWeightSearch.cpp:395-397 | on the rows e1, e0 the row exchange as written leaves combinations that no longer record the rows |
| Reductions.PivotBitReads | CodingTool/src/LowWeightSearch.cpp:393 | in a full word the pivot test reads entry j |
| Reductions.PivotBitInLastWord | CodingTool/src/LowWeightSearch.cpp:393 | in a partly filled last word the test reads the entry `pad` places earlier, or a leading zero |
| Reductions.PivotBitMisreads | CodingTool/src/LowWeightSearch.cpp:393 | on the full-rank 2×2 matrix [[1,1],[0,1]] every pivot test reads false, and the matrix is not systematic |
| Reductions.ReachesSpan | CodingTool/src/LowWeightSearch.cpp:322-331 | a combination of rows that reach b, put back through the permutation, is a code word of b |
| Reductions.TracksInSpan | CodingTool/src/LowWeightSearch.cpp:433 | rows whose combinations are recorded lie in the span of the generator |
| LowWeightSearches.LowWeightSearch.DeltaGauss | CodingTool/src/LowWeightSearch.cpp:270-299 | (lambda, mu) holds a 1; Z becomes DeltaZ, the combinations get row lambda added where DeltaZ adds it, and vColsPerm exchanges lambda and k + mu |
| LowWeightSearches.LowWeightSearch.AddPivotRow | CodingTool/src/LowWeightSearch.cpp:286-294 | row i gets row lambda added, keeps its 1 in column mu, and its combination row gets lambda's added |
| Candidates.DeltaKeepsCode | CodingTool/src/LowWeightSearch.cpp:283-298 | the new [I \| Z] with the recorded exchange still lies in the row space of the reduced generator |
| Candidates.DeltaKeepsPivot | CodingTool/src/LowWeightSearch.cpp:283-295 | row lambda and column mu come through DeltaGauss unchanged |
| Candidates.DeltaAddsRows | CodingTool/src/LowWeightSearch.cpp:287-291 | off column mu, a changed row is the sum of the two old rows |
| SearchFacts.DeltaKeepsOne | CodingTool/src/LowWeightSearch.cpp:276-281 | after DeltaGauss, Z still has a 1, so the next round's Z has a 1 |
| SearchFacts.DeltaKeepsRound | CodingTool/src/LowWeightSearch.cpp:241 | after DeltaGauss, Z has a 1, the column vector is a permutation, and Z descends from the input |
| LowWeightSearches.LowWeightSearch.BuildMinVector | CodingTool/src/LowWeightSearch.cpp:302-334 | k + m bits; when each vector is empty or a permutation, the result is MinVector: the indicator of the picks and their Z sum, put back through the three vectors |
| LowWeightSearches.MarkRows | CodingTool/src/LowWeightSearch.cpp:308-311 | k zeros with a 1 at every picked row |
| LowWeightSearches.AddRows | CodingTool/src/LowWeightSearch.cpp:306-314 | the sum of the Z rows of the picks |
| LowWeightSearches.PermuteBack | CodingTool/src/LowWeightSearch.cpp:320-331 | one of the three loops: the columns are put back where p took them from |
| Candidates.MinVectorWeight | CodingTool/src/LowWeightSearch.cpp:164-175 | the word's weight is the number of rows plus the weight of their Z sum, which is dTempHW |
| Candidates.MinVectorInCode | CodingTool/src/LowWeightSearch.cpp:175 | along the chain of generators, every word built is a code word of the input |
| LowWeightSearches.LowWeightSearch.RandomPermuteColumns | CodingTool/src/LowWeightSearch.cpp:338-353 | the draw is a permutation of the n columns, row r becomes row r gathered by it, and the rows reach the input through it |
| LowWeightSearches.CopyColumn | CodingTool/src/LowWeightSearch.cpp:346-348 | column src of the source is copied into column i of every row and nothing else changes |
| SearchFacts.DrawIsPermutation | CodingTool/src/LowWeightSearch.cpp:343 | n distinct values from [0, n-1] are a permutation |
| LowWeightSearches.LowWeightSearch.CodeShortening | CodingTool/src/LowWeightSearch.cpp:443-482 | the reduced rows reach the input; one row goes per pivoted column (rows == reduced + pivots); a column is pivoted exactly when it is not forced to zero; every code word zero on the columns is in the reduced span; the result is the reduced rows without the columns, or empty |
| LowWeightSearches.ClearColumn | CodingTool/src/LowWeightSearch.cpp:451-468 | no pivot leaves the rows as they are, with the column zero; otherwise the first row with a 1 is added to every other row with a 1 |
| LowWeightSearches.DeleteListed | CodingTool/src/LowWeightSearch.cpp:477-478 | `DeleteColumn(vColumns[i] - i)` deletes exactly the listed columns |
| LowWeightSearches.ShortenStep | CodingTool/src/LowWeightSearch.cpp:453-470 | a column with a pivot keeps the span, clears one more column, keeps every code word zero on it, and is not forced |
| LowWeightSearches.ShortenColumn | CodingTool/src/LowWeightSearch.cpp:451-472 | one pass of the column loop: the rows still reach the input, one row fewer exactly when a pivot was found, and one more column is cleared and retained |
| Shortenings.RetainsNoPivot | CodingTool/src/LowWeightSearch.cpp:469 | a column with no 1 left is forced to zero, and the rows still hold every code word zero on the columns so far |
| Shortenings.ShortenedCode | CodingTool/src/LowWeightSearch.cpp:443-482 | the code of the shortened rows is exactly the set of code words of the input that are zero on the columns, with those columns deleted |
| Shortenings.ShortenedDetermines | CodingTool/src/LowWeightSearch.cpp:477-478 | a row is determined by its survivors once it is zero on the listed columns |
| HashTables.FillTable | CodingTool/src/LowWeightSearch.cpp:118-142 | every record's key is below 2^sigma; every single row but the last and every pair of Z1 is filed under its key; the table is that of the records of FillOrder pushed in turn onto the front of their buckets |
| HashTables.KeyOf | CodingTool/src/LowWeightSearch.cpp:121 | the key of a row of at most 64 bits is below 2^length |
| HashTables.Insert | CodingTool/src/LowWeightSearch.cpp:122-127 | the new record heads the bucket of its key, followed by the old chain (or nothing); every other bucket is unchanged |
| HashTables.FillRow | CodingTool/src/LowWeightSearch.cpp:119-141 | one pass of the outer loop pushes the single row i, then its pairs, extending the table along FillOrder |
| HashTables.FillPairs | CodingTool/src/LowWeightSearch.cpp:130-140 | the inner loop pushes the pairs (i, j), j > i, in order, each under the XOR of the two keys |
| HashTables.TableBuckets | CodingTool/src/LowWeightSearch.cpp:119-142 | pushing records one by one makes a key present exactly when a record is filed under it, and its chain lists those records, the last pushed first |
| HashTables.BucketHead | CodingTool/src/LowWeightSearch.cpp:127-139 | the head of a non-empty bucket is the last record pushed under its key |
| HashTables.FilledHead | CodingTool/src/LowWeightSearch.cpp:118-151 | after the fill, the head of each bucket, the one record a probe looks at, is the record filed last under its key in the fill order |
| HashTables.HeadMatches | CodingTool/src/LowWeightSearch.cpp:147-157 | the head record of a bucket a probe finds adds up to the probe on the sampled columns |
| HashTables.KeyInjective | CodingTool/src/LowWeightSearch.cpp:121 | equal keys of rows of one length are equal rows |
| HashTables.PairKeyOfSum | CodingTool/src/LowWeightSearch.cpp:132 | the XOR of two keys is the key of the sum of the rows |
| SearchFacts.ProbeFound | CodingTool/src/LowWeightSearch.cpp:150-173 | a matched probe names a valid vMinimum whose Z sum is oTempWord and is zero on every sampled column |
| LowWeightSearches.Lookup | CodingTool/src/LowWeightSearch.cpp:147-151 | a hit exactly when the key is in the table; the head record then adds up to the probe |
| LowWeightSearches.Candidate | CodingTool/src/LowWeightSearch.cpp:154-157 | oTempWord and vMinimum of a probe |
| LowWeightSearches.LowWeightSearch.Weigh | CodingTool/src/LowWeightSearch.cpp:159-164 | the rows of a match vanish on the sampled columns; the weight is at least 2, and without weights it is the number of rows plus the weight of their sum |
| LowWeightSearches.LowWeightSearch.Score | CodingTool/src/LowWeightSearch.cpp:158-161 | without a weight vector, the score of oTempWord is its number of set bits |
| LowWeightSearches.LowWeightSearch.ScoreUnit | CodingTool/src/LowWeightSearch.cpp:158-161 | with a weight vector of all 1s, either weighted count equals the plain number of set bits |
| LowWeightSearches.LowWeightSearch.Offer | CodingTool/src/LowWeightSearch.cpp:166-189 | a candidate is accepted exactly when it is below dMinWeight and passes the check; accepting it updates the state and writes the word, and otherwise nothing changes |
| LowWeightSearches.LowWeightSearch.Take | CodingTool/src/LowWeightSearch.cpp:180-183 | the rows become m_vCombinedRows and the word is written |
| LowWeightSearches.LowWeightSearch.Probe | CodingTool/src/LowWeightSearch.cpp:147-189 | one probe keeps the search state; a stop means a word at or below MINIMUM was accepted |
| LowWeightSearches.LowWeightSearch.Matched | CodingTool/src/LowWeightSearch.cpp:151-189 | a found bucket's candidate is weighed and offered |
| LowWeightSearches.LowWeightSearch.ProbePairs | CodingTool/src/LowWeightSearch.cpp:194-238 | the pair probes of row i keep the search state and stop only on MINIMUM |
| LowWeightSearches.LowWeightSearch.ProbeAll | CodingTool/src/LowWeightSearch.cpp:144-239 | the online comparison keeps the search state and stops only on MINIMUM |
| LowWeightSearches.LowWeightSearch.Sample | CodingTool/src/LowWeightSearch.cpp:109-239 | the draw, the table and the probes extend the accepted words and keep the search state |
| LowWeightSearches.LowWeightSearch.Pivot | CodingTool/src/LowWeightSearch.cpp:241 | DeltaGauss keeps Z with a 1 and on the chain of generators |
| LowWeightSearches.LowWeightSearch.Round | CodingTool/src/LowWeightSearch.cpp:107-253 | a round keeps the search state; a hang happens only on a Z without a 1 |
| LowWeightSearches.LowWeightSearch.Iterate | CodingTool/src/LowWeightSearch.cpp:107-253 | rounds until ITER or until MINIMUM is reached; a hang only in round 0 |
| LowWeightSearches.LowWeightSearch.Fallback | CodingTool/src/LowWeightSearch.cpp:255-263 | every row lighter than the lightest so far is taken and written (Lightest) |
| SearchFacts.LightestIsFirstMinimum | CodingTool/src/LowWeightSearch.cpp:256-263 | the fallback returns the first row of least weight when it is below the bound, otherwise no row |
| SearchFacts.LightestLog | CodingTool/src/LowWeightSearch.cpp:256-263 | the rows written are scanned rows below the bound, the last of them the row returned |
| LowWeightSearches.LowWeightSearch.Finish | CodingTool/src/LowWeightSearch.cpp:255-266 | the last word accepted, or else the fallback's row; when corrected that row is a code word of the input |
| SearchFacts.FallbackInSpan | CodingTool/src/LowWeightSearch.cpp:255-263 | corrected: the row the fallback returns and every row it writes is a code word of the input |
| SearchFacts.FallbackAsWrittenLeavesCode | CodingTool/src/LowWeightSearch.cpp:255-263 | as written: on the single row 010 the fallback returns 100, which is not a code word of the input |
| SearchFacts.ScoresFall | CodingTool/src/LowWeightSearch.cpp:166-181 | the scores of the accepted words fall strictly |
| SearchFacts.MinWeightLeast | CodingTool/src/LowWeightSearch.cpp:251-252 | dMinWeight is the least accepted score and at least 2, so the break on 0 cannot fire |
| LowWeightSearches.ProgressAccepted | CodingTool/src/LowWeightSearch.cpp:52 | a word has been accepted exactly when dMinWeight is below its start value |
| LowWeightSearches.LowWeightSearch.Prepare | CodingTool/src/LowWeightSearch.cpp:76-104 | the optional random permutation, then GaussMod2 unless already systematic; the chain of generators reaches the input, and Z is extracted; the reduced generator is systematic when the input is and is not permuted, or when the input rows are independent and GaussMod2 is corrected or reads whole words |
| LowWeightSearches.Halves | CodingTool/src/LowWeightSearch.cpp:101-104 | vI1 is the first floor(k/2) rows, and vI2 is as many rows after them |
| LowWeightSearches.Range | CodingTool/src/LowWeightSearch.cpp:77-78 | the numbers lo … hi-1 |
| LowWeightSearches.LowWeightSearch.ShuffleColumns | CodingTool/src/LowWeightSearch.cpp:80-82 | with PERMUTE the columns are permuted by a recorded permutation that reaches the input and keeps independent rows independent; without it nothing changes |
| LowWeightSearches.LowWeightSearch.Systematize | CodingTool/src/LowWeightSearch.cpp:84-89 | the recorded column permutation reaches the input; a systematic input is left alone; with an exact pivot test or whole words independent rows become systematic |
| SearchFacts.LoopReady | CodingTool/src/LowWeightSearch.cpp:92-104 | the prepared generator is k×n, the column vector 0..n-1 is a permutation, and once reduced Z descends from the input along the chain |
| LowWeightSearches.LowWeightSearch.Rounds | CodingTool/src/LowWeightSearch.cpp:101-253 | the halves, then the rounds: the accepted words are the words written and keep the search state; the rounds stop at ITER or at a score at or below MINIMUM; a hang only in round 0 on a Z without a 1 |
| LowWeightSearches.LowWeightSearch.Loop | CodingTool/src/LowWeightSearch.cpp:101-253 | with ITER > 0 the loop is undefined exactly when k < 2, n <= k, or sigma is 0 with k >= 4; otherwise as Rounds, and with ITER = 0 no round runs |
| LowWeightSearches.LowWeightSearch.Run | CodingTool/src/LowWeightSearch.cpp:92-266 | from the prepared generator: undefined exactly as Loop, otherwise the outcome is Concluded (the last accepted word, or the fallback row) |
| LowWeightSearches.LowWeightSearch.Start | CodingTool/src/LowWeightSearch.cpp:76-266 | on a non-empty matrix: undefined exactly when, as written, the rows outnumber the columns rounded up to whole 64-bit words, or as Loop; otherwise the chain starts at the input, reduction happens when the input is systematic and unpermuted or independent (exact test or whole words), and the outcome is Concluded |
| LowWeightSearches.LowWeightSearch.Search | CodingTool/src/LowWeightSearch.cpp:37-267 | undefined exactly under SearchUndefined; an empty matrix returns the empty word; otherwise the outcome is Concluded: accepted words pass the check at falling scores, are code words once reduced (which independent input rows guarantee when corrected or on whole words), and are written in order, with the last returned or the fallback |
| LowWeightSearches.LowWeightSearch.CanteautChabaud | CodingTool/src/LowWeightSearch.cpp:37-267 | Search with the settings read from the parameters; each setting is inserted as 0 exactly when the path taken reads it (SettingsRead), and OUTPUT as "" |
| LowWeightSearches.ReadFirst | CodingTool/src/LowWeightSearch.cpp:47-62 | SIGMA and OUTPUT are read and inserted when absent; the other settings are looked up without changing the map |
| LowWeightSearches.ReadLater | CodingTool/src/LowWeightSearch.cpp:80-245 | the map gains PERMUTE after the checks, ITER at the loop test, MINIMUM after an accepted word and DOUTPUT after a round, as SettingsRead says |
| LowWeightSearches.ConcludeReturned | CodingTool/src/LowWeightSearch.cpp:255-266 | a search that ran to its end is Concluded with the word it returns |
| LowWeightSearches.ConcludeHangs | CodingTool/src/LowWeightSearch.cpp:276-281 | a search whose first DeltaGauss finds no 1 is Concluded as a hang |
| Sha1Expansion.Sha1Me | CodingTool/examples/allinone.cpp:132-137 | words 16..59 of the array are the SHA-1 schedule of the first 16 |
| Sha1Expansion.ScheduleWord | CodingTool/examples/sha1me.cpp:99-104 | word j is ROTL(m[j-3] ^ m[j-8] ^ m[j-14] ^ m[j-16], 1) |
| Sha1Expansion.Schedule | CodingTool/examples/allinone.cpp:132-137 | n words, the first 16 the message itself |
| Sha1Expansion.NextWordRotates | CodingTool/examples/allinone.cpp:132-137 | the word stored at j is the XOR of words j-3, j-8, j-14, j-16 rotated left by one place |
| Sha1Expansion.RotlRotates | CodingTool/examples/allinone.cpp:38 | the macro ROTL(w, x) is the rotation of w by x places towards the most significant bit |
| Sha1Expansion.RotrRotates | CodingTool/examples/allinone.cpp:36 | the macro ROTR(w, x) is the rotation of w by x places towards the least significant bit |
| Sha1Expansion.RotlInverse | CodingTool/examples/allinone.cpp:37-39 | ROTR(_, 1) undoes ROTL(_, 1) |
| Sha1Expansion.ScheduleXor | CodingTool/examples/allinone.cpp:132-137 | the schedule is linear: the schedule of a XOR b is the XOR of the schedules |
| Sha1Expansion.BuildFunction | CodingTool/examples/allinone.cpp:105-129 | a fresh word of 1920 bits: the 60 schedule words of the unit message e_i |
| Sha1Expansion.UnitWord | CodingTool/examples/allinone.cpp:116 | corrected: the word with only bit i mod 32 set |
| Sha1Expansion.UnitWordAsWritten | CodingTool/examples/allinone.cpp:116 | as written: ROTR(1, i+1) has a defined value exactly for i <= 30 |
| Sha1Expansion.UnitWordAsWrittenDefined | CodingTool/examples/allinone.cpp:116 | where the macro is defined, ROTR(1, i+1) is the word with only bit i set |
| Sha1Expansion.UnitWordAsWrittenUndefined | CodingTool/examples/allinone.cpp:116 | as written: for row 31 the macro shifts by 32, which C++ leaves undefined |
| Sha1Expansion.UnitMessage | CodingTool/examples/allinone.cpp:112-119 | the 16 words of the message of row i are zero except word i/32 |
| Sha1Expansion.BuildGenerator | CodingTool/examples/sha1me.cpp:65 | Build(&BuildFunction, 512) gives the 512×1920 generator |
| Sha1Expansion.CodeIsExpansion | CodingTool/examples/sha1me.cpp:44-53 | the combination of generator rows that a message selects is the expansion of that message |
| Sha1Expansion.CodeWordReexpands | CodingTool/examples/allinone.cpp:94-100 | every code word is the expansion of its first 512 bits, so with its last 32 bits zero its word 59 re-expands to zero |
| Sha1Expansion.ForceZeroColumns | CodingTool/examples/allinone.cpp:84-86 | the last 32 columns, in ascending order |
| Sha1Expansion.ShortenedWordReexpands | CodingTool/examples/allinone.cpp:83-100 | with "-f", any code word of the shortened matrix, such as the one returned, re-expands to a zero word 59 |

## Left out

- File output (`CodeWordFile`, `PrintBool`, `Print32`, `Print64`, `PrintMatrix`, `Parameters::Print`, `PrintUsage`, every `std::cout`): the words written to the code-word file are kept as a ghost log (`written`); console output is not modelled.
- `ReadFromFile`, `AddInformation` and the `-cw`/`-cm` file settings: these are file I/O.
- `CodeWord::At32`, `Set32`, `Erase32`, `Pop32`, `Pop64`: these are 32-bit and word-sized variants of the bit operations modelled. The search and the examples do not use them, except `At32` in `allinone`, which is modelled as reading `w[..512]` word by word (`Words32Of`).
- `CodeMatrix::At32`, `Set32`, `Set64`, `Transpose`, and `LowWeightSearch::CheckToGenerator`: the search does not use them.
- The Mersenne Twister: `random()` is replaced by an arbitrary stream of 32-bit outputs given to the constructor. Reading `/dev/urandom` and the clock for the seed becomes a constructor argument. The model proves only range and distinctness facts about the draws, not their distribution.
- Heap management (`new`/`delete` of hash records, `FreeHashTable`, destructors): the hash table is a map from key to a sequence of records, head first. It is rebuilt each round, as freeing and re-filling it does.
- The check function is an `Option` of a pure function of the word. A C++ check function with side effects or state is not modelled.
- Integer widths: bit positions, counts and weights are unbounded `nat`. The 64-bit word arithmetic is written out bit by bit. `dMinWeight`'s start value 1000000 is the constant `Unset`. A score above it is not possible for the matrix sizes modelled.
- `floor(k / 2.0)` is modelled as `k / 2` on naturals. The two agree for every k below 2^53.
- Search, CanteautChabaud: `1 << sigma` for sigma > 30 (LowWeightSearch.cpp:47) is undefined behaviour in C++. The model returns `Undefined` for it, as it does for these other cases:
  - GaussMod2 as written reading past a row's last word;
  - the loop bounds `GetRows() - 1` and `GetColumns() - 1` wrapping below zero when k < 2 or n ≤ k and a round runs;
  - `At64` on an empty sample (sigma = 0 with k ≥ 4).
- DeltaGauss: the pivot is any entry of Z holding a 1; it is not drawn from the random stream. The source's draw loop (LowWeightSearch.cpp:272-281) consumes stream outputs until it hits a 1; the model does not advance the stream there, so later draws are not tied to the stream's true position, and a stream that never names a 1 is not modelled.
- Search, CanteautChabaud: an all-zero Z makes DeltaGauss loop forever. The model returns `Hangs` without running the loop, and proves that this can only happen in the first round.
- Search, CanteautChabaud: `WeightsCover` requires the weight vector to be empty or long enough for a row of Z. The source reads `vWeights[i]` out of range otherwise (CodeWord.cpp:47), which is undefined behaviour.
- CanteautChabaud, ReadFirst: PERMUTE, ITER and MINIMUM are looked up before the search and inserted into the map after it, on exactly the paths where the source reads them. The final map is the same as the source's; the order of the insertions relative to the search is not modelled, and nothing reads the map in between.
- CodeShortening: `Shortenable` requires the listed columns to be distinct, ascending and inside the matrix. The source never checks this. For any other list, `DeleteColumn(vColumns[i] - i)` deletes the wrong columns or reads out of range.
- Set64: for the last word, the new word must keep the padding clear. The source stores any d (CodeWord.cpp:168-172). Stored padding bits would then become visible through `At64`, the cached weight and `operator==`, so the model only admits words that keep the representation valid.
- SetBool: requires i < |Bits()|. The source (CodeWord.cpp:129-141) also writes bits in the padding of the last word, which no caller in the search does; stored padding bits would become visible through `At64`, the cached weight and `operator==`, as for Set64.
- GaussMod2, Prepare: as written, they require at most as many rows as there are bits in whole words of a row. Otherwise `At64(j / 64)` reads past the end of a row. The corrected variant has no such requirement.
- GetRandomPosInteger: requires n > 0. `dTemp % 0` is undefined in C++.
- GetRandomPosVector: requires lb ≤ ub. The source's `ub - lb - i` wraps around otherwise.
- WeightedHammingWeight: requires at least 64 weights. The source reads `vWeights[i]` for i < 64.
- ParseSettings: `argc <= 1` inside the loop can never be true there, so it is not modelled. A value that `stream >> int` rejects leaves 0, as C++11 specifies.

## Findings

| source | as written | input that shows it | evidently intended | confidence | as-written member | corrected member |
|---|---|---|---|---|---|---|
| CodingTool/src/CodeWord.cpp:270-277 | PopBool wraps the offset from 64 to 0 and keeps the now empty last word | a 65-bit word (offset 63): after PopBool it has 128 bits, the last 64 of them zeros | the last bit is removed, and the emptied word is dropped | not executed | CodeWords.CodeWord.PopBool, CodeWords.PopBoolAsWrittenGrows | CodeWords.CodeWord.PopBoolCorrected |
| CodingTool/src/CodeWord.cpp:220-223 | Erase64 removes a word but keeps the offset of the old last word | a 65-bit word of ones, erasing word 1: one word with offset 63, 64 cached ones and set padding | the offset becomes 0 when the last word is erased | not executed | CodeWords.Erase64AsWritten, CodeWords.Erase64AsWrittenBreaksCache | CodeWords.CodeWord.Erase64 |
| CodingTool/src/LowWeightSearch.cpp:395-397 | GaussMod2 exchanges rows without exchanging the matching rows of m_oGaussCombinations | the rows e1, e0 of 64 bits: after the first exchange, combination row 0 still names input row 0 (e1) while row 0 is e0 | the combination rows are exchanged with the rows | not executed | LowWeightSearches.LowWeightSearch.GaussMod2, LowWeightSearches.CombosNotExchanged | LowWeightSearches.LowWeightSearch.GaussMod2Corrected |
| CodingTool/src/LowWeightSearch.cpp:393 | the pivot test `(At64(j/64) << (j%64)) & MSB` reads a right-aligned last word as if it were left-aligned | the full-rank matrix [[1,1],[0,1]]: every test reads false, and the result is not systematic | test entry j itself (AtBool) | not executed | Reductions.PivotBitMisreads, LowWeightSearches.LowWeightSearch.GaussMod2 | LowWeightSearches.LowWeightSearch.GaussMod2Corrected |
| CodingTool/src/CodeWord.cpp:40-50 | GetHammingWeight(vWeights) indexes vWeights by word number, not by bit | the word 01 with weights [1, 5]: the result is 1, not 5 | the sum of vWeights[i] over the set bits i | not executed | CodeWords.CodeWord.GetWeightedHammingWeight, CodeWords.WeightIndexedByWord | CodeWords.CodeWord.GetBitWeightedHammingWeight |
| CodingTool/src/LowWeightSearch.cpp:255-263 | the fallback returns a row of the permuted, reduced generator without putting its columns back | the single row 010: GaussMod2 exchanges columns 0 and 1, and the fallback returns 100, not a code word | restore the columns through vGaussPerm and vRandPerm before returning | not executed | SearchFacts.FallbackAsWrittenLeavesCode | LowWeightSearches.LowWeightSearch.Finish |
| CodingTool/examples/allinone.cpp:116 | `ROTR(unitv, i+1)` shifts by 32 - (i+1) and by i+1, so for i ≥ 31 a shift by 32 or more | row 31: `unitv >> 32` is undefined behaviour | `1 << (31 - i % 32)` | not executed | Sha1Expansion.UnitWordAsWritten, Sha1Expansion.UnitWordAsWrittenUndefined | Sha1Expansion.UnitWord |
