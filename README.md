# Tweets generator, modelled in Dafny

`tweetsGenerator.c` reads a text corpus into a dictionary and generates
random "tweets" from it. The model covers two parts of the program.

**The dictionary.** It is a linked list (`LinkList` of `Node`s) of
`WordStruct` records. Each record holds:

- a word, i.e. a token of the corpus split on spaces and newlines;
- the word's number of occurrences (`appears_in_txt`);
- a `prob_list` of `WordProbability` entries. Each entry points at the
  record of a word that followed this one on the same line, with the number
  of times it did (`appears_after_word`).

A word ending in '.' gains no `prob_list` entries. `fill_dictionary` reads
the corpus line by line, optionally stopping after a given number of tokens.

**Generation.** `generate_sentence` works in two steps:

- It picks a first word uniformly among the records, rejecting words that
  end in '.'.
- It then walks the `prob_list`s. Each next word is drawn with probability
  proportional to its weight. The walk stops after a word ending in '.' or
  at the 20th word.

**How the model is organised.** The model keeps the program's two levels.

- **Values.** `WordModel` describes a dictionary as a sequence of `Entry`
  values. It gives the fold that reading tokens performs (`Step`,
  `BuildLine`, `Build`) and proves the dictionary's invariant:
  - words are unique;
  - counts equal occurrences in the lines read;
  - weight sums equal same-line followers;
  - terminal words have no successors;
  - each `prob_list` names a follower at most once, and the weight of the
    edge a -> b is the number of times b directly follows a on a line
    (`EdgeInv`), so a pair that never occurs has no entry.
- **Which tokens are read.** `Ingest` states this, including the token cap
  and the end-of-line break.
- **Sampling.** `Sampler` gives the sampler's arithmetic.
- **Generation on values.** `Generation` gives the rejection loop and the
  walk as functions of the values `rand()` returns.
- **The heap.** `Store` has the classes `WordStruct`, `Node` and
  `LinkList`. Their methods are the C functions that update records in
  place.
- **Proof against the values.** `Sentences` and `TweetsGenerator` hold the
  methods for sampling, generation and `fill_dictionary`. Each is proved
  against its value-level counterpart: `dictionary.Model()` is the list's
  records read as values.

**How randomness is handled.** `rand()` is replaced by the sequence of
values it returns (`rnds: seq<nat>`). Each operation returns how many of
those values it used. If they run out before the C program would stop, the
model reports `OutOfDraws`.

**Three behaviours modelled as written.**

- **The next-word draw can return NULL.** `get_next_random_word` draws
  `rand() % appears_in_txt + 1` and compares it against the `prob_list`
  weights. The weights sum to the word's same-line followers, not to its
  occurrences. So for a word that ends some line, the scan can run off the
  list and return NULL. `generate_sentence` then dereferences that NULL.
  - The model reports this as the outcome `NullWord`.
  - `NullDrawIff` states exactly when it happens.
- **An empty dictionary.** `main` calls `generate_sentence` whatever
  `fill_dictionary` produced. The dictionary is empty, for instance, when
  the first line has no token and no cap is given (`EmptyFirstLineStops`).
  `get_first_random_word` then computes `rand() % 0`. The model reports
  this as the outcome `EmptyDictionary`.
- **A sentence has at least 2 words.** The comment on `generate_sentence`
  promises this. The loop always draws a second word after the first, or
  dereferences NULL. `TweetShape` proves that every completed sentence has
  2 to 20 words.

## Model

| member | source | states |
|---|---|---|
| Tokens.Split | tweetsGenerator.c:373-391 | strtok with the delimiters " \n" yields only non-empty tokens free of delimiters |
| Tokens.SplitKeepsText | tweetsGenerator.c:373-391 | the tokens, concatenated, are the line with its delimiters removed |
| Tokens.SplitJoin | tweetsGenerator.c:373-391 | splitting tokens joined by single spaces gives back those tokens |
| Tokens.SplitToken | tweetsGenerator.c:373-391 | a token followed by a delimiter is the first token returned, the rest splits as before |
| Tokens.SplitDelimiter | tweetsGenerator.c:373-391 | a leading delimiter, space or newline, is skipped |
| WordModel.Find | tweetsGenerator.c:284-300 | the first record whose word equals the key, or none exactly when no record has it |
| WordModel.FindTarget | tweetsGenerator.c:214-225 | the first prob_list entry whose target's word equals the key, or none exactly when none has it |
| WordModel.BumpTotal | tweetsGenerator.c:210-249 | recording an edge raises the prob_list's weight sum by exactly one |
| WordModel.AddWordCount | tweetsGenerator.c:302-334 | counting a word raises that word's count by one and no other count or sum |
| WordModel.AddEdgeCount | tweetsGenerator.c:336-354 | recording prev -> cur raises only prev's weight sum, by one, and no count |
| WordModel.Bump | tweetsGenerator.c:210-249 | a prob_list after one more follower t: one entry longer, the new entry {t, 1}, exactly when t had no entry; otherwise the same length |
| WordModel.AddWord | tweetsGenerator.c:302-334 | the dictionary after counting a word: one record longer, the new record {w, 1, []}, exactly when w had no record |
| WordModel.AddEdge | tweetsGenerator.c:336-354 | the dictionary after recording prev -> cur: the number of records does not change |
| WordModel.Step | tweetsGenerator.c:382-390 | the dictionary after one token: one record more exactly when the token was not yet in it |
| WordModel.BuildLine | tweetsGenerator.c:373-392 | the dictionary after one line: it gains at most one record per token of the line |
| WordModel.Build | tweetsGenerator.c:371-398 | the dictionary built from the lines read: at most as many records as tokens read |
| WordModel.UniqueStep | tweetsGenerator.c:382-390 | reading a token keeps the words of the dictionary unique |
| WordModel.PositiveStep | tweetsGenerator.c:382-390 | reading a token keeps every count and every weight at least 1 |
| WordModel.StepInv | tweetsGenerator.c:382-390 | reading one more token keeps counts equal to occurrences and weight sums equal to same-line followers (0 for a word ending in '.') |
| WordModel.BuildLineInv | tweetsGenerator.c:373-392 | reading a whole line keeps that invariant |
| WordModel.BuildInv | tweetsGenerator.c:356-400 | the dictionary built from any lines satisfies that invariant |
| WordModel.BumpWeight | tweetsGenerator.c:210-249 | recording follower t raises t's weight in the prob_list by one (from 0 when it had no entry) and leaves every other target's weight unchanged |
| WordModel.BumpDistinct | tweetsGenerator.c:210-249 | recording a follower never gives a prob_list a second entry for the same target |
| WordModel.AddWordWeight | tweetsGenerator.c:302-334 | counting a word changes no edge weight |
| WordModel.AddEdgeWeight | tweetsGenerator.c:336-354 | recording prev -> cur raises the weight of exactly that edge by one and of no other |
| WordModel.DistinctStep | tweetsGenerator.c:382-390 | reading a token keeps every prob_list free of repeated targets |
| WordModel.StepPairs | tweetsGenerator.c:382-390 | one more token on a line adds exactly one adjacent pair, (previous token, token), when there is a previous token |
| WordModel.StepEdgeInv | tweetsGenerator.c:382-390 | reading one more token keeps prob_list targets distinct and every edge weight a -> b equal to the number of times b directly follows a on a line (0 when a ends in '.') |
| WordModel.BuildLineEdgeInv | tweetsGenerator.c:373-392 | reading a whole line keeps that edge invariant |
| WordModel.BuildEdgeInv | tweetsGenerator.c:356-400 | the dictionary built from any lines satisfies the edge invariant |
| WordModel.BuildEdgeWeights | tweetsGenerator.c:356-400 | in the dictionary built from any lines, each prob_list entry's weight is the number of times its target directly follows the record's word on a line |
| WordModel.FollowersAtMostOcc | tweetsGenerator.c:376-396 | a word is followed on its line at most as often as it occurs |
| WordModel.InLineOcc | tweetsGenerator.c:376-396 | within a line, a word's followed occurrences plus its line-final occurrence are all its occurrences |
| WordModel.BuildSnoc | tweetsGenerator.c:371-398 | reading one more line continues the dictionary from where the previous lines left it |
| WordModel.BuildLineNext | tweetsGenerator.c:376-391 | reading one more token of a line is one Step with the previous token of that line |
| Ingest.NumWordsToRead | tweetsGenerator.c:457-474 | no argument, 0 and -1 all give 0 ("no cap"); any other value is passed through, never -1 |
| Ingest.MinusOneMeansNoCap | tweetsGenerator.c:466-471 | passing -1 reads exactly what omitting the argument reads |
| Ingest.Taken | tweetsGenerator.c:376-377 | the tokens of a line read before the cap stops the inner loop: all of them without a cap, none once the cap is reached |
| Ingest.TakenGuard | tweetsGenerator.c:376-377 | the inner loop's guard holds exactly while fewer than Taken tokens were read |
| Ingest.ReadNextLine | tweetsGenerator.c:394-397 | after a line, the reading stops exactly when the cap is met and otherwise continues with the next line |
| Ingest.ReadFromCapped | tweetsGenerator.c:371-398 | with a positive cap, the tokens read are exactly the first cap tokens of the corpus (all of them if fewer) |
| Ingest.ReadFrom | tweetsGenerator.c:371-398 | the tokens read from each line, i tokens having been read before: no more lines than the input has, and the reading stops before the last line only when i plus the tokens read reaches the cap |
| Ingest.Read | tweetsGenerator.c:371-398 | the tokens fill_dictionary reads: no more lines than the input has, and the reading stops before the last line only when exactly cap tokens were read |
| Ingest.SplitAll | tweetsGenerator.c:371-373 | one token sequence per input line, each the strtok split of that line |
| Ingest.ReadFromPrefixes | tweetsGenerator.c:371-398 | every line read is a prefix of the corresponding corpus line |
| Ingest.ReadAllWithoutCap | tweetsGenerator.c:371-398 | without a cap, a corpus whose first line has a token is read whole |
| Ingest.EmptyFirstLineStops | tweetsGenerator.c:394-395 | without a cap, a first line with no token ends the reading (i == words_to_read == 0) with an empty dictionary |
| Ingest.NegativeCapReadsNothing | tweetsGenerator.c:376-377 | a negative cap other than -1 reads no token |
| Ingest.FillDictionaryFacts | tweetsGenerator.c:356-400 | the built dictionary has unique words; each count equals the word's occurrences; the weight sum of a word not ending in '.' equals its same-line followers and is at most its count; a word ending in '.' has no entries; every word read has a record; a positive cap bounds the tokens read; each prob_list names a follower at most once, and the weight of a -> b is the number of times b directly follows a on a line (0, with no entry, when that never happens or a ends in '.') |
| Sampler.GetRandomNumber | tweetsGenerator.c:81-86 | the number is below max_number, and equals the rand() value when that is already below it |
| Sampler.GetRandomNumberIsRemainder | tweetsGenerator.c:81-86 | the number is the rand() value modulo max_number |
| Sampler.Draw | tweetsGenerator.c:131-134 | the draw lies between 1 and appears_in_txt |
| Sampler.SelectFrom | tweetsGenerator.c:135-148 | the scan from entry j with y of the draw left: the first entry from j whose running weight sum from j reaches y, or none when no running sum does |
| Sampler.Select | tweetsGenerator.c:135-149 | the chosen entry is the first whose running weight sum reaches the draw; none exactly when no running sum reaches it |
| Sampler.SelectNoneIff | tweetsGenerator.c:135-149 | no entry is chosen exactly when the draw exceeds the weight sum |
| Sampler.SelectInterval | tweetsGenerator.c:135-149 | entry j is chosen exactly when the draw lies in its weight interval (Cum(j), Cum(j+1)] |
| Sampler.SelectWithinTotal | tweetsGenerator.c:135-149 | a draw within the weight sum always chooses an entry |
| Sampler.CumMonotone | tweetsGenerator.c:135-149 | running weight sums do not decrease |
| Store.WordStruct.constructor | tweetsGenerator.c:326-331 | a new record has the word, count 1 and an empty prob_list |
| Store.Recorded | tweetsGenerator.c:210-249 | the prob_list after add_word_to_probability_list: at most one entry longer, and a new entry is {second_word, 1} |
| Store.RecordedIsBump | tweetsGenerator.c:210-249 | recording an edge on records is, as values, bumping the target's weight or appending it with weight 1 |
| Store.LinkList.constructor | tweetsGenerator.c:490 | the empty dictionary {NULL, NULL, 0} |
| Store.LinkList.Add | tweetsGenerator.c:51-73 | a fresh last node holding the record is appended, first changes only when the list was empty, size grows by one |
| Store.CheckIfInDict | tweetsGenerator.c:284-300 | null exactly when no record has the word, otherwise the first record, in list order, that has it |
| Store.AddWordToWordstruct | tweetsGenerator.c:302-334 | a present word's record has its count raised by one, the flag set to 1 and is returned; otherwise a fresh record (count 1, empty prob_list) is returned, the dictionary and the flag unchanged |
| Store.IncrementCount | tweetsGenerator.c:316 | only the count of that record changes, by one, and the list stays a dictionary |
| Store.AddWordToProbabilityList | tweetsGenerator.c:210-249 | the first entry whose target has the second word's word gains one and 0 is returned; otherwise {second_word, 1} is appended and 1 is returned |
| Store.AddToProb | tweetsGenerator.c:336-354 | nothing changes and 1 is returned for no previous word or one ending in '.'; otherwise the edge is recorded and 0 returned |
| Generation.Candidate | tweetsGenerator.c:100-116 | the node reached from first after get_random_number(size) steps is a record of the dictionary |
| Generation.FirstPick | tweetsGenerator.c:94-121 | the first accepted draw: every earlier draw hit a word ending in '.', the accepted word does not; none exactly when every draw hits such a word |
| Generation.Emit | tweetsGenerator.c:170-188 | the walk keeps the words so far as a prefix, never exceeds 20 words, adds at least one word when it completes, and uses rand() values only from the current one on |
| Generation.Generate | tweetsGenerator.c:158-191 | EmptyDictionary exactly for an empty dictionary; no word exactly when every rand() value draws a word ending in '.'; otherwise the first word is a word of the dictionary not ending in '.' |
| Generation.EmitNull | tweetsGenerator.c:172-174 | a pass whose draw chooses no entry ends the walk on NULL |
| Generation.EmitEnds | tweetsGenerator.c:172-185 | a pass choosing a word ending in '.', or the 20th word, completes the sentence with it |
| Generation.EmitOn | tweetsGenerator.c:172-187 | any other pass appends the chosen word and continues from its record |
| Generation.EmitTweet | tweetsGenerator.c:170-188 | a walk that completes extends the words so far by 1 to 20 words, stopping at its first word ending in '.' or the 20th, each word following the previous one |
| Generation.TweetShape | tweetsGenerator.c:152-191 | a completed tweet has 2 to 20 words, starts with a word not ending in '.', ends at its first word ending in '.' or at the 20th, and each word was recorded as a follower of the previous one |
| Generation.FollowsAt | tweetsGenerator.c:141-142 | the target of a prob_list entry has a record and follows the word |
| Sentences.GetNextRandomWord | tweetsGenerator.c:129-150 | the subtracting scan returns the target Select chooses for the draw, and NULL exactly when Select chooses none |
| Sentences.SelectAt | tweetsGenerator.c:137-142 | the entry where the scan stops is Select's choice |
| Sentences.GetFirstRandomWord | tweetsGenerator.c:94-121 | the record FirstPick chooses, with the rand() values used; null when they run out first |
| Sentences.DictWellFormed | tweetsGenerator.c:356-400 | a dictionary's values have unique words, positive counts and weights, and a record for every prob_list target |
| Sentences.Tweeter.constructor | tweetsGenerator.c:160 | the tweet counter starts at 1 |
| Sentences.Tweeter.GenerateSentence | tweetsGenerator.c:158-191 | the outcome is Generate's on the dictionary's values, EmptyDictionary for an empty one; a completed tweet returns its number of words and advances the counter by one |
| Sentences.NextRecord | tweetsGenerator.c:172-174 | get_next_random_word on a record: null exactly when Select chooses no entry, otherwise the record of the chosen target |
| Sentences.EmitWords | tweetsGenerator.c:169-190 | the loop of generate_sentence produces Emit's outcome, and a completed tweet's word count |
| TweetsGenerator.FillDictionary | tweetsGenerator.c:356-400 | the list is a dictionary whose values are Build of the tokens Read selects, and its size is its number of records |
| TweetsGenerator.ReadLine | tweetsGenerator.c:376-392 | the tokens Taken allows are read in order and the token count grows by that many |
| TweetsGenerator.ReadNext | tweetsGenerator.c:376-391 | one pass of the token loop extends the line read so far by one token |
| TweetsGenerator.ReadToken | tweetsGenerator.c:382-390 | one token is counted and its edge from the previous token recorded, as Step does; its record is returned |
| TweetsGenerator.CountWord | tweetsGenerator.c:382-385 | the word is counted, as a new last record when it was not in the dictionary |
| TweetsGenerator.AddNewRecord | tweetsGenerator.c:384-385 | the fresh record is appended and the list stays a dictionary |
| TweetsGenerator.RecordEdge | tweetsGenerator.c:388 | add_to_prob records prev -> cur in the values as AddEdge does, unless prev is missing or ends in '.' |
| TweetsGenerator.NullDrawIff | tweetsGenerator.c:129-150 | in a built dictionary, get_next_random_word returns NULL for a word not ending in '.' exactly when the rand() value modulo its occurrences is at least its same-line followers |

## Left out

- The C pseudo-random generator, `srand`/`initialize_seed` and the seed
  argument. `rand()` is an input sequence of values.
- The rejection loop of `get_first_random_word` calls `rand()` for ever
  when every draw lands on a word ending in '.'. The walk makes at most 19
  draws. In the model, running out of the given values ends the call with
  `OutOfDraws`. `Generate` states that no word at all is produced exactly
  when every given value draws a word ending in '.'.
- Dereferencing a NULL returned by `get_next_random_word` has no behaviour
  in C. The model stops with the outcome `NullWord`.
- Output is not modelled: the `printf` calls, the "Tweet N: " label and
  the spaces and newline. The words are returned instead. `Tokens.Join`
  and `SplitJoin` describe joining them by single spaces.
- `main`, `argc_validity`, `strtol` on the arguments, the loop over the
  number of tweets, `free_dictionary` and `fclose` are not modelled.
  `main`'s empty list and the `get_num_words_to_read` mapping are.
- Allocation failure is not modelled: `malloc`/`realloc` returning NULL,
  `deal_with_allocation_error`, and `add` returning 1.
- File reading is given as the sequence of strings `fgets` returns.
  - A line longer than 999 characters comes back from `fgets` in several
    pieces, and each piece is read as a line of its own. The model is
    faithful to that only when the caller supplies those pieces.
  - The `feof` test after a line is not modelled separately. Ending the
    loop on `feof` or on the next `fgets` returning NULL reads the same
    tokens.
- Store.AddWordToWordstruct: a token longer than 99 characters overflows
  the 100-byte buffer it is copied into. The model copies any length.
- Counts, weights and sizes are unbounded integers. The C `int` overflow
  past 2^31 - 1 is not modelled.
- `prob_list_size` is the length of the `probList` sequence. The
  reallocation of the array is not modelled.
- Sentences.Tweeter.GenerateSentence: the counter advances only for a
  completed tweet. On the outcomes C cannot survive or leave (`NullWord`,
  `OutOfDraws`, `EmptyDictionary`) it is left unchanged.
- Sentences.GetFirstRandomWord: requires a non-empty dictionary, as do
  Generation.FirstPick and Generation.Candidate. On an empty one the C
  function computes `rand() % 0`, which has no defined behaviour.
  `GenerateSentence` checks for this first and reports `EmptyDictionary`.
