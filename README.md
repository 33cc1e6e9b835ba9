# HMM part-of-speech tagger — a Dafny model

This project models the core of a hidden-Markov-model part-of-speech tagger. The Java class `POSTagger` is the original. The model covers three parts:

- **Training.** A corpus is a sequence of lines. Each line pairs a sentence with its space-separated tags. Training lower-cases both and splits them at single spaces, then counts two kinds of pair into nested maps:
  - emissions, `tag -> word`;
  - transitions, `tag -> next tag`, where the first tag of a line comes from the start pseudo-tag `#`.
- **Weighting (`freqToWeight`).** Both count tables are turned, row by row, into natural-log probabilities: each count becomes `ln(count / row total)`.
- **Decoding (`viterbi`).**
  - A forward pass keeps, for each reachable tag, the best score of a path ending in it, together with a backpointer.
  - A word the tag never emitted scores the penalty `-100`.
  - A score is replaced only by a strictly higher one.
  - The tag with the best final score is traced back through the backpointers onto a stack.
  - The stack is popped into a space-separated, upper-cased line.

Files, from the bottom up:

| file | module | contents |
|---|---|---|
| `results.dfy` | `Results` | `Option`, `Result`, and the two error kinds |
| `text.dfy` | `Text` | ASCII case mapping; Java's `String.split(" ")`, including the `""` → `[""]` case and trailing-empty removal; joining; rendering the output line |
| `tables.dfy` | `Tables` | the nested-map table type; the row total; one counted occurrence (`Bump`); the trained model `Hmm`; what decoding needs of it (`Decodable`) |
| `corpus.dfy` | `Corpus` | what training reads and counts, as multisets of pairs; when a line can be read without an out-of-range tag index; the count tables of a multiset |
| `trainer.dfy` | `Trainer` | the counting loop and `train` |
| `weights.dfy` | `Weights` | `freqToWeight` and its specification `Normalise` |
| `paths.dfy` | `Paths` | tag paths, their scores, best paths, and the frontier of reachable tags (the specification the decoder is proved against) |
| `viterbi.dfy` | `Viterbi` | the decoder |

Design choices:
- The Java `Double` counts and weights are `real`.
- `Math.log` is a parameter `ln: real -> real`.
- Iteration over a `HashMap` or `HashSet` is an arbitrary choice (`:|`), so every property holds whatever the iteration order.

## Model

| member | source | states |
|---|---|---|
| `Trainer.CountLine` | POSTagger.java:143-196 | Counting one line succeeds exactly when no tag index is out of range (`Indexable`). On success, the new tables are the count tables of the old multisets plus this line's emission pairs and transition pairs. |
| `Trainer.CountLines` | POSTagger.java:133-197 | Training's counting pass succeeds exactly when every line is indexable. On failure it names the first line that is not. On success the tables are the emission and transition counts of the whole corpus. |
| `Trainer.Train` | POSTagger.java:125-212 | `train` fails exactly as counting does. Otherwise it returns both count tables normalised to log-probabilities (`Trained`). |
| `Trainer.CountsAt` | POSTagger.java:151-161 | The emission count stored for (tag, word) is the number of corpus positions with that tag and word. The transition count for (a, b) is the number of counted a→b transitions. Pairs never counted read as 0. |
| `Trainer.TagSetOccurs` | POSTagger.java:151-154 | A tag has an emission row exactly when it occurs at some word position of the corpus. |
| `Trainer.StartRow` | POSTagger.java:135-175 | If no corpus tag is `#`, the `#` row exists and its count for tag `a` is the number of non-empty lines whose first tag is `a`. |
| `Trainer.TargetsAreTags` | POSTagger.java:184-195 | When no line has exactly one word, every transition target is a corpus tag. |
| `Trainer.StartNeverTarget` | POSTagger.java:167-195 | When no line has exactly one word and no tag is `#`, no transition leads back into `#`. |
| `Trainer.TrainedDecodable` | POSTagger.java:176-181 | When no line has exactly one word, the trained model has a transition row and an emission row for every transition target. So the decoder never looks up a missing row. |
| `Trainer.OneWordLineBreaksDecoding` | POSTagger.java:167-195 | A one-word line with tags `a b` trains without error but records `a -> b` while `b` emits nothing. The trained model is then not decodable. |
| `Corpus.IndexableIff` | POSTagger.java:143-184 | A line can be counted exactly when it has no words, or has at least as many tags as words and at least two tags. |
| `Corpus.UnreadableAt` | POSTagger.java:145-184 | An out-of-range tag read at any word position makes the line uncountable. |
| `Corpus.TableOfBump` | POSTagger.java:151-161 | Adding one occurrence of a pair to the multiset changes its count table exactly as the three-way create-or-increment update does. |
| `Corpus.TableOfEnsureRow` | POSTagger.java:176-181 | Giving a line-final tag an empty transition row matches adding that tag to the keyed set while the counts are unchanged. |
| `Corpus.EmitStep` | POSTagger.java:151-161 | The emission update at one word position keeps the table equal to the counts of the pairs read so far. |
| `Corpus.MoveStepFirst` | POSTagger.java:167-195 | The first position of a line counts `# -> t0` and then always `t0 -> t1`, even on a one-word line, because the last-word branch is skipped at position 0. The table stays equal to the counts read so far. |
| `Corpus.MoveStepInner` | POSTagger.java:184-195 | An inner position counts `t[i] -> t[i+1]` and keeps the table equal to the counts read so far. |
| `Corpus.MoveStepLast` | POSTagger.java:176-181 | The last position of a longer line counts nothing but ensures its tag has a row. The table still equals the counts read so far. |
| `Tables.Bump` | POSTagger.java:151-161 | One occurrence of `a -> b`. The result has row `a`, with `b` added to it. Every other row is unchanged. Exactly one stored value, `(a, b)`, grows by one, and a new pair starts at 1. |
| `Tables.EnsureRow` | POSTagger.java:178-179 | Adds an empty row for an unseen tag. Every existing row is left exactly as it was, and no stored value changes. |
| `Tables.TotalRemove` | POSTagger.java:222-225 | A row's total does not depend on the order in which its values are summed. |
| `Tables.TotalPositive` | POSTagger.java:222-225 | A row of positive counts has total 0 exactly when it is empty, and is positive otherwise. So the division at line 228 never divides by zero. |
| `Weights.FreqToWeight` | POSTagger.java:220-231 | The in-place rewrite yields exactly `Normalise(freq, ln)`. |
| `Weights.WeighInPlace` | POSTagger.java:227-229 | Overwriting every value of one row with `ln(value / tot)`, where `tot` is the row's total, gives that row's weights. |
| `Weights.RowTotal` | POSTagger.java:222-225 | The summing loop computes the row's total, whatever order its keys are visited in. |
| `Weights.Normalise` | POSTagger.java:220-231 | Normalising keeps every row and every key. Each weight is `ln` of its count's share of its row's positive total. |
| `Weights.RatiosSumToOne` | POSTagger.java:227-229 | In every non-empty row, the shares whose logarithms are stored sum to 1: each row is a probability distribution. |
| `Weights.TotalScale` | POSTagger.java:228 | Dividing every value of a row by `d` divides its total by `d`. |
| `Weights.NormaliseDecodable` | POSTagger.java:204-205 | Normalisation keeps a decodable pair of tables decodable. |
| `Text.NoTokensIffBlank` | POSTagger.java:50-54 | `split(" ")` of the lower-cased line yields no tokens exactly when the line is non-empty and all spaces. That is the only case the empty-line return handles; `""` yields one empty token. |
| `Text.SplitRender` | POSTagger.java:108-115 | Splitting the output line at spaces gives back the upper-cased tags, one per token, when no tag contains a space and the last tag of a longer path is not empty (Java drops trailing empty pieces). |
| `Text.UpperJoin` | POSTagger.java:108-115 | Upper-casing the joined line equals joining the upper-cased tags. |
| `Text.SplitLower` | POSTagger.java:50 | Case folding commutes with `split(" ")`: the tokens of the lower-cased line are the lower-cased tokens of the line, so lower-casing before splitting (lines 50, 140-141) changes only the case of each token, never how the line is cut. |
| `Paths.ReachIffPath` | POSTagger.java:65-92 | A tag is in the frontier after `k` words exactly when some recorded-transition path of length `k` from `#` ends in it. |
| `Paths.DeadEndPersists` | POSTagger.java:65-92 | Once no tag is reachable, no tag is reachable after any later word. |
| `Paths.TraceSnoc` | POSTagger.java:103-106 | Adding a backpointer map extends each traced path by one tag and leaves the earlier steps' traces unchanged. |
| `Paths.LinkedSnoc` | POSTagger.java:83-91 | Adding a map whose backpointers all name tags of the previous step keeps the backpointer list walkable back to `#`. |
| `Paths.SuccessorsHaveRows` | POSTagger.java:70-72 | In a decodable model every tag of the next frontier has a transition row, so the next step's `transitions.get(curr)` is defined. |
| `Viterbi.Relax` | POSTagger.java:72-85 | After the inner loop over `curr`'s transitions, the frontier gains exactly `curr`'s targets. No recorded score decreased. Every recorded score is attained through its backpointer. No move out of `curr` beats the recorded score of its target. A tag that `curr` does not move to keeps its entry. A target ends with the move's score and backpointer `curr` when it had no score or the move is strictly higher, and with its old entry otherwise. |
| `Viterbi.RelaxUpdate` | POSTagger.java:81-84 | Recording a strictly better score (or a first score) together with its predecessor keeps the inner loop's invariant. That invariant says that unvisited tags keep their entries and that each visited target holds the outcome of its comparison. |
| `Viterbi.RelaxKeep` | POSTagger.java:81 | Leaving a score that is at least as good keeps the inner loop's invariant. The target's old entry is then its outcome. |
| `Viterbi.RelaxDone` | POSTagger.java:72-85 | Once every move out of `curr` is compared, every entry is attained through its backpointer, no score went down, and no move out of `curr` beats its target's score. |
| `Viterbi.Advance` | POSTagger.java:66-91 | One forward step. The next frontier is exactly the successors of the current one. Each backpointer names a current tag whose move (transition weight plus the emission weight, or the `-100` penalty for an unseen word) attains the recorded score. No move scores more than its target's recorded score. |
| `Viterbi.FrontierStep` | POSTagger.java:65-92 | One step keeps the decoder's invariant `Frontier` from `i` words to `i + 1`. |
| `Viterbi.OptimalStep` | POSTagger.java:78-84 | If no path of length `i` beats the recorded scores, then no path of length `i + 1` beats the new ones. |
| `Viterbi.FrontierStart` | POSTagger.java:60-62 | Before any word, the only scored tag is `#`, with score 0, and the invariant holds. |
| `Viterbi.ForwardPass` | POSTagger.java:57-92 | After all words: the scored tags are exactly the final frontier; each one's backpointers trace a path with its recorded score; and no path of the sentence's length beats the score of its last tag. |
| `Viterbi.BestFinal` | POSTagger.java:94-99 | Picks a tag of maximum final score. It picks none exactly when the final frontier is empty. |
| `Viterbi.Backtrack` | POSTagger.java:101-106 | The stack holds the path traced back from the chosen tag, first tag on top. |
| `Viterbi.FrontierBest` | POSTagger.java:94-106 | The path traced from a best-scored final tag is a best path for the sentence. |
| `Viterbi.Spell` | POSTagger.java:108-115 | Popping the stack into the builder gives the tags joined by single spaces and upper-cased. |
| `Viterbi.Decode` | POSTagger.java:45-106 | For a decodable model and at least one word, decoding fails exactly when no tag is reachable after the last word. Otherwise it returns a path of the sentence's length that no other path outscores. |
| `Viterbi.TagLine` | POSTagger.java:45-116 | An all-space line gives `""`. Tagging fails exactly when no tag is reachable. Otherwise the result is the rendering of some best path for the line's tokens. |

## Left out

- Choosing the files (`getPath`, line 300-322) and reading them through `Scanner`s are not modelled. The same goes for `main`, the interactive loop (`inputTagger`) and the evaluation report (`evaluateTagger`): these are console and file I/O. The corpus is given as a sequence of (sentence, tags) line pairs instead.
- A tag file with fewer lines than the sentence file is not modelled. Java fails there on `nextLine`, and the pairing of lines is taken as given.
- `Math.log` is the parameter `ln`. `Double` arithmetic is exact `real` arithmetic, so rounding and `-Infinity` are not modelled.
- Case mapping covers ASCII letters only. Java's `toLowerCase` and `toUpperCase` are locale- and Unicode-aware.
- `Train` follows the code, not the prose description of the input. Java throws only when a tag index is out of range, which is what `Indexable` means. A line with more tags than words, for example, is counted without error. A training failure is a `Failure` naming the first such line, in place of the propagated `ArrayIndexOutOfBoundsException`. The tables are discarded, as they are in Java.
- The unbalanced parenthesis at `POSTagger.java:151` is read as the evident `!observations.containsKey(tag)`.
- Viterbi.Decode: requires `Decodable`, a condition on the whole model: the start pseudo-tag and every transition target of every row have a transition row, and every target has an emission row. Java only needs rows for the tags it actually reaches while tagging a given line (`transitions.get(curr)` at line 72, `observations.get(next)` at line 75), and throws a `NullPointerException` otherwise. `Decode` says nothing about models that meet Java's weaker condition but not `Decodable`. An example is the model trained from `OneWordLineBreaksDecoding`'s corpus: Java tags the line `x` as `A` with it.
- Viterbi.TagLine: inherits the same whole-model `Decodable` precondition from `Decode`, and likewise says nothing about models where only the reached tags have rows.
- `Decode` and `TagLine` return `Failure(DeadEnd)` when the final frontier is empty. Java instead traces a `null` tag and prints `NULL` for every word.
- `currStates` and `nextStates` are not kept separately. They are always the key sets of the score maps, and the model uses those key sets.
- `Viterbi.BestFinal`, `Viterbi.Decode`: among tags (or paths) with equal best scores, the choice follows hash-map iteration order, which the model leaves open. Only optimality is stated, not which optimum is returned.
- `RowTotal`, `WeighInPlace`, `Relax`, `Advance`, `ForwardPass`, `BestFinal`, `Backtrack` and `Spell` are loops of `freqToWeight` and `viterbi` given as methods of their own. The maps they rewrite are values passed in and returned. Aliasing between the Java maps is not modelled.
- `Trainer.StartRow`, `Trainer.TargetsAreTags` and `Trainer.StartNeverTarget` assume that no corpus tag is `#`, or that no line has exactly one word. Those corpora mix the start row with a real tag's row, or record transitions to tags without rows, as `OneWordLineBreaksDecoding` shows.
- The unit-test class `ViterbiTest.java` is not part of this model.
