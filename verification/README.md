# Sentiment feature pipeline, modelled in Dafny

The sentiment service answers a piece of free text with the label of a
pre-trained bag-of-words classifier. Its logic is the pipeline in
`front/web/main.py`:

1. `extract_features` tokenizes the review.
2. It keeps the useful tokens: not a stopword, and not a substring of `string.punctuation`.
3. It lemmatizes them and joins the lemmas with spaces.
4. It lower-cases the text and replaces every character outside `[a-zA-Z0-9\s]` with a space.
5. It splits on `" "` and filters again.
6. It emits every contiguous 1-, 2- and 3-gram, joined with `_`.
7. `bag_of_words` counts the features into a dictionary.
8. `get_sentiment` hands that dictionary to the classifier and returns its label unchanged.

The web handler in `front/web/app.py` rejects a missing or empty `input` before calling `get_sentiment`. Here "missing" means a GET without the `input` parameter, or a JSON body whose `input` is `null`. A JSON body without the key raises `KeyError` at front/web/app.py:15, before the guard is reached.

The project has four modules:

- `PyStr` (`pystr.dfy`) models the Python string built-ins the pipeline uses:
  - the substring test `w in s`;
  - `sep.join`;
  - `s.split(" ")`;
  - ASCII `lower()`;
  - the character classes of the regular expression.
- `NGrams` (`ngrams.dfy`) models nltk's `everygrams`. Grams are enumerated by start position and then by length, the sliding-window order of nltk 3.5 and later. `Windows` lists the `(start, length)` pairs as an independent reference.
- `Pipeline` (`pipeline.dfy`) holds the functions of `main.py`:
  - `bag_of_words` is a method with a loop. It is proved against the function `Bag`, which counts with multisets.
  - The pure steps are functions with lemmas.
  - The collaborators are fields of a `Context` value: `word_tokenize`, the lemmatizer, the stopword list and `model.classify`.
- `App` (`app.dfy`) models the guard of the `predict` handler.

Two behaviours of the program are worth stating plainly:

- `if not input` (front/web/app.py:16) rejects only a missing value and `""`. Whitespace-only text is therefore classified like any other, and `App.Predict` models exactly that. If the tokenizer returns no tokens for such text, `Pipeline.AllStopwordsEmptyBag` shows that the classifier gets the empty bag.
- No unigram feature is ever a stopword (`Pipeline.UnigramFeatures`). A 2- or 3-gram feature contains `_`. `Pipeline.BagKeysUseful` proves that no bag key is a stopword, under the condition that no stopword contains `_`, which holds for the English list.

## Model

| member | source | states |
|---|---|---|
| PyStr.Join | front/web/main.py:43 | joining no parts gives `""`; the first part is a prefix of the result |
| PyStr.JoinChars | front/web/main.py:43 | every character of a join comes from the separator or from one of the parts |
| PyStr.Split | front/web/main.py:46 | `split` yields at least one piece; no piece contains the separator |
| PyStr.SplitChars | front/web/main.py:46 | every character of a piece occurs in the split string |
| PyStr.SplitLength | front/web/main.py:46 | a split yields one more piece than the string has separators |
| PyStr.JoinSplit | front/web/main.py:43-46 | joining the pieces of a split with the separator gives back the original string |
| PyStr.SplitJoin | front/web/main.py:43-46 | splitting a join of separator-free pieces gives back exactly those pieces |
| PyStr.IsSpace | front/web/main.py:38 | the class `\s` on a `str`: the code points `str.isspace()` accepts |
| PyStr.Lower | front/web/main.py:44 | lower-casing keeps the length; it leaves no ASCII upper-case letter; it changes no other character |
| PyStr.IsSubstring | front/web/main.py:35 | Python's `w in s` on two strings: `w` occurs at some position of `s`, so `""` is in every string |
| PyStr.ForeignCharNotSubstring | front/web/main.py:35 | a word holding a character that the string lacks is not a substring of it |
| PyStr.RepeatedCharNotSubstring | front/web/main.py:35 | a character that occurs once in a string never occurs twice in a row in it |
| PyStr.RunIsSubstring | front/web/main.py:35 | every contiguous run of a string, the empty one included, is a substring of it |
| NGrams.Everygrams | front/web/main.py:47 | every gram has between 1 and `max_len` elements |
| NGrams.Windows | front/web/main.py:47 | every listed `(start, length)` window has 1 to `max_len` elements and fits inside the sequence |
| NGrams.WindowsComplete | front/web/main.py:47 | every window that fits is listed |
| NGrams.WindowsSorted | front/web/main.py:47 | windows are listed in strictly increasing (start, length) order, so each appears once |
| NGrams.EverygramsAtWindows | front/web/main.py:47 | the grams of a suffix are, position by position, the slices at the windows that start in that suffix |
| NGrams.EverygramsSlices | front/web/main.py:47 | all grams are, position by position, the slices at all windows |
| NGrams.EverygramsExact | front/web/main.py:47 | the grams correspond one to one, in order, to the pairs `(i, n)` with `1 <= n <= max_len` and `i + n <= k`; each gram is the slice `xs[i..i+n]` |
| NGrams.EverygramsCount | front/web/main.py:47 | with `max_len=3`, `k` items yield `k + max(k-1,0) + max(k-2,0)` grams; none when `k = 0` |
| Pipeline.Bag | front/web/main.py:28-32 | the reference bag: each distinct word mapped to its number of occurrences, by multiset count |
| Pipeline.BagSnoc | front/web/main.py:30-31 | one more word raises its count by one, starting from zero, and leaves every other count alone |
| Pipeline.BagOfWords | front/web/main.py:28-32 | the keys are exactly the distinct words; each count is the word's number of occurrences and at least 1; the empty list gives the empty map |
| Pipeline.TotalBump | front/web/main.py:31 | raising one count by one, from zero when the word is new, raises the sum of the counts by one |
| Pipeline.BagTotal | front/web/main.py:28-32 | the counts of the bag add up to the length of the word list |
| Pipeline.BagPermutation | front/web/main.py:28-32 | two word lists that are permutations of each other give the same bag |
| Pipeline.Punctuation | front/web/main.py:4 | `string.punctuation`, built from the four ASCII ranges `!`-`/`, `:`-`@`, `[`-`` ` `` and `{`-`~` |
| Pipeline.PunctuationIsAsciiSymbols | front/web/main.py:4 | `string.punctuation` has 32 characters, exactly the printable ASCII characters from `!` to `~` that are neither letters nor digits |
| Pipeline.IsUsefulWord | front/web/main.py:34-35 | a useful word is non-empty and not a stopword |
| Pipeline.PunctuationRunNotUseful | front/web/main.py:35 | every contiguous run of `string.punctuation` is rejected, e.g. `""` and `"()"` |
| Pipeline.ForeignCharUseful | front/web/main.py:35 | a non-stopword holding a character outside `string.punctuation` is useful |
| Pipeline.RepeatedPunctuationUseful | front/web/main.py:35 | the test is on substrings, not characters: `"(("` is useful unless it is a stopword |
| Pipeline.PunctuationNotKept | front/web/main.py:38 | no character of `string.punctuation` survives the substitution |
| Pipeline.IsKept | front/web/main.py:38 | the class `[a-zA-Z0-9\s]`: ASCII letters and digits plus `str.isspace()` characters |
| Pipeline.RemovePunctuation | front/web/main.py:37-38 | the length is kept; each character of `[a-zA-Z0-9\s]` stays at its position; every other character becomes `' '` |
| Pipeline.RemovePunctuationIdempotent | front/web/main.py:37-38 | applying the substitution twice is the same as applying it once |
| Pipeline.LemmatizeUseful | front/web/main.py:42 | a lemma occurs iff it is the lemma of some useful token; there are at most as many lemmas as tokens |
| Pipeline.LemmatizeUsefulOne | front/web/main.py:42 | one token gives its lemma when it is useful and nothing otherwise |
| Pipeline.LemmatizeUsefulAppend | front/web/main.py:42 | the lemmas of `a + b` are the lemmas of `a` followed by those of `b`; with the one-token case this fixes order and repetitions |
| Pipeline.NoUsefulTokenNoLemma | front/web/main.py:42 | without a useful token the lemma list is empty |
| Pipeline.Normalize | front/web/main.py:43-45 | the normalized document holds only characters of `[a-zA-Z0-9\s]` and no ASCII upper-case letter |
| Pipeline.FilterWords | front/web/main.py:46 | a word is kept iff it is a non-empty, useful piece; the result is no longer than the input |
| Pipeline.FilterWordsOne | front/web/main.py:46 | one piece is kept exactly when it is non-empty and useful |
| Pipeline.FilterWordsAppend | front/web/main.py:46 | the words kept from `a + b` are those kept from `a` followed by those kept from `b`, so order is kept |
| Pipeline.FilterWordsCount | front/web/main.py:46 | a kept word occurs as often as in the pieces; any other word does not occur |
| Pipeline.CleanWords | front/web/main.py:43-46 | every word left is non-empty and useful; it has no `' '`, no ASCII upper-case letter and only `[a-zA-Z0-9\s]` characters |
| Pipeline.CleanWordHasNoPunctuation | front/web/main.py:45-46 | a filtered word contains no character of `string.punctuation`, in particular no `'_'` |
| Pipeline.FilteredWords | front/web/main.py:41-46 | the words `extract_features` builds n-grams from satisfy every property `CleanWords` states |
| Pipeline.ExtractFeatures | front/web/main.py:40-47 | every feature is non-empty and is not a substring of `string.punctuation`; its count is `ExtractFeaturesCount`, each feature's content is `FeatureAtWindow` and `FeaturesAtWindows`, and the bag keys are `BagKeysUseful` |
| Pipeline.FilterKeepsClean | front/web/main.py:46 | filtering a list of already-filtered words returns it unchanged |
| Pipeline.CleanWordsIdempotent | front/web/main.py:43-46 | re-running join, lower-case, substitution, split and filter on their own output changes nothing |
| Pipeline.Features | front/web/main.py:47 | there is one feature per gram of `everygrams(words, max_len=3)` |
| Pipeline.FeaturesAtWindows | front/web/main.py:46-47 | the feature at window `(i, n)` is the `_`-join of `words[i..i+n]`; splitting it at `_` gives those words back; it is non-empty and not a substring of `string.punctuation` |
| Pipeline.FeatureAtWindow | front/web/main.py:47 | the feature at position `j` is the `_`-join of the words in the `j`-th window |
| Pipeline.GramFeature | front/web/main.py:46-47 | the `_`-join of one or more filtered words splits back into them at `_`, is non-empty and is not a punctuation substring |
| Pipeline.UnigramFeatures | front/web/main.py:46-47 | every filtered word's unigram window is listed and the word is a feature; the feature at any 1-word window is the word at its start, and it is no stopword and no punctuation substring |
| Pipeline.ExtractFeaturesCount | front/web/main.py:40-47 | over `k` filtered words `extract_features` yields `k + max(k-1,0) + max(k-2,0)` features |
| Pipeline.FeatureNotStopword | front/web/main.py:46-47 | if no stopword contains `_`, no feature is a stopword |
| Pipeline.BagKeysUseful | front/web/main.py:46-51 | every key of the bag given to the classifier is non-empty and not a punctuation substring; if no stopword contains `_`, no key is a stopword |
| Pipeline.AllStopwordsEmptyBag | front/web/main.py:40-51 | when every token is a stopword, or there are none, no word survives and the classifier receives the empty bag |
| Pipeline.ExampleLemmas | front/web/main.py:42 | for the tokens `I love this product`, only `this` is dropped before lemmatizing |
| Pipeline.ExampleNormalize | front/web/main.py:43-46 | `I love product` normalizes and splits into `i`, `love`, `product` |
| Pipeline.ExampleFilter | front/web/main.py:46 | the lower-cased `i` is dropped as a stopword in the second filter |
| Pipeline.ExampleFeatures | front/web/main.py:47 | the words `love`, `product` give the features `love`, `love_product`, `product`, in that order |
| Pipeline.ExampleBag | front/web/main.py:28-32 | the features `love`, `love_product`, `product` give the bag `{love: 1, love_product: 1, product: 1}` |
| Pipeline.LoveProductExample | front/web/main.py:40-52 | "I love this product" (stopwords `i`, `this`, identity lemmatizer) gives the words `love`, `product` and the bag `{love: 1, love_product: 1, product: 1}` |
| Pipeline.GetSentiment | front/web/main.py:49-52 | the result is the classifier's label for the bag of the review's features, with no post-processing, also when that bag is empty |
| App.Predict | front/web/app.py:11-18 | a missing input (`None`: a GET without `input`, or a JSON `null`) or an empty one gets "No input value found"; any other text, whitespace-only included, gets `get_sentiment`'s label |

## Left out

- Module-level loading (front/web/main.py:14-21): the nltk downloads to `/tmp`, the change to `nltk.data.path`, and opening and unpickling `sa_classifier.pickle`. This is file and network I/O plus opaque deserialisation.
- `word_tokenize`, `WordNetLemmatizer.lemmatize`, the English stopword list and `model.classify` are foreign code. They are the fields of `Pipeline.Context`, with no assumed behaviour. The list's only modelled property is its use in membership tests.
- Determinism of `get_sentiment`: every step is a Dafny function of its inputs and of the `Context`, so equal inputs give equal labels by construction. No lemma states this separately.
- PyStr.Lower: models `str.lower()` on ASCII letters only. Python also lower-cases non-ASCII letters. A few of them become ASCII (KELVIN SIGN U+212A becomes `k`), and some change length (U+0130 becomes two characters). In the model every non-ASCII letter stays as it is, and the substitution then turns it into a space.
- Lone surrogate code points: a Python `str` can hold them but a Dafny `char` cannot, so such input is not modelled.
- `str(...)` around each lemma and each joined n-gram (front/web/main.py:42, 47) is the identity on strings and is not modelled.
- Dictionary insertion order of `bag` is not modelled. The bag is a Dafny `map`.
- NGrams.Everygrams: fixes the enumeration order of nltk 3.5 and later, by start and then by length. nltk 3.0 to 3.4 enumerated by length and then by start. They yield the same grams, so the bag is the same (`Pipeline.BagPermutation`).
- The Flask application (front/web/app.py:1-9, 12-15, 21-22) is HTTP glue and is left out. This covers routing, CORS, reading `input` from the query string or the JSON body, and `app.run`. `App.Predict` takes the extracted value as an optional string. JSON values that are not strings (numbers, lists) are not modelled.
- A POST whose JSON body has no `input` key raises `KeyError` at front/web/app.py:15, before the guard, so Flask answers with a server error rather than "No input value found". `App.Predict` starts after the value has been read, so this failure is not modelled.
