/**
 * The text-to-feature pipeline of the sentiment service and its entry point
 * `get_sentiment`: tokenize, drop stopwords and punctuation, lemmatize,
 * normalize, re-split and re-filter, enumerate the 1-, 2- and 3-grams, count
 * them into a bag and hand the bag to the trained classifier.
 */
module Pipeline {
  import opened PyStr
  import opened NGrams

  /** What the classifier reads: each feature mapped to how often it occurs. */
  type FeatureBag = map<string, nat>

  /**
   * The collaborators the pipeline calls but does not define: nltk's
   * `word_tokenize`, `WordNetLemmatizer().lemmatize`, the English stopword
   * list, and `classify` of the classifier loaded at start-up.
   */
  datatype Context = Context(
    tokenize: string -> seq<string>,
    lemmatize: string -> string,
    stopwords: seq<string>,
    classify: FeatureBag -> string)

  /** The ASCII characters from `lo` to `hi`, in order. */
  function AsciiRange(lo: char, hi: char): (r: string)
    requires lo <= hi < '\U{0080}'
    ensures forall c :: c in r <==> lo <= c <= hi
  {
    var n := hi as int - lo as int + 1;
    var r := seq(n, i requires 0 <= i < n => (lo as int + i) as char);
    forall c | lo <= c <= hi
      ensures c in r
    {
      assert r[c as int - lo as int] == c;
    }
    r
  }

  /**
   * Python's `string.punctuation`, the printable ASCII characters that are
   * neither letters, digits nor space: `!"#$%&'()*+,-./:;<=>?@[\]^_`{|}~`.
   */
  const Punctuation: string := AsciiRange('!', '/') + AsciiRange(':', '@') + AsciiRange('[', '`') + AsciiRange('{', '~')

  /**
   * `string.punctuation` has 32 characters: exactly the printable ASCII
   * characters from `!` to `~` that are neither letters nor digits.
   */
  lemma PunctuationIsAsciiSymbols()
    ensures |Punctuation| == 32
    ensures forall c :: c in Punctuation <==> '!' <= c <= '~' && !IsAsciiAlnum(c)
  {
  }

  // ---------------------------------------------------------------------
  // bag_of_words

  /** The bag of a word list: every distinct word mapped to its number of occurrences. */
  function Bag(words: seq<string>): FeatureBag {
    map w | w in words :: multiset(words)[w]
  }

  /** Appending one word bumps its count by one, starting from zero. */
  lemma BagSnoc(words: seq<string>, w: string)
    ensures Bag(words + [w]) == Bag(words)[w := (if w in Bag(words) then Bag(words)[w] else 0) + 1]
  {
    var s := words + [w];
    var before := Bag(words);
    var after := before[w := (if w in before then before[w] else 0) + 1];
    assert multiset(s) == multiset(words) + multiset{w};
    assert forall x :: x in s <==> x in words || x == w;
    assert Bag(s).Keys == after.Keys;
    forall x | x in after
      ensures Bag(s)[x] == after[x]
    {
      if x != w {
        assert multiset(s)[x] == multiset(words)[x];
      }
    }
  }

  /** `bag_of_words(words)`: counts the words into a dictionary, one at a time. */
  method BagOfWords(words: seq<string>) returns (bag: FeatureBag)
    ensures forall w :: w in bag <==> w in words
    ensures forall w :: w in bag ==> bag[w] == multiset(words)[w] && bag[w] >= 1
    ensures bag == Bag(words)
  {
    bag := map[];
    for i := 0 to |words|
      invariant bag == Bag(words[..i])
    {
      var w := words[i];
      BagSnoc(words[..i], w);
      assert words[..i + 1] == words[..i] + [w];
      bag := bag[w := (if w in bag then bag[w] else 0) + 1];
    }
    assert words[..|words|] == words;
  }

  /** Sum of the counts of a bag. */
  ghost function Total(bag: FeatureBag): nat
    decreases |bag|
  {
    if |bag| == 0 then 0
    else
      var w := AnyKey(bag);
      bag[w] + Total(bag - {w})
  }

  /** Some key of a non-empty bag. */
  ghost function AnyKey(bag: FeatureBag): (w: string)
    requires |bag| > 0
    ensures w in bag
  {
    assert bag.Keys != {};
    var w :| w in bag; w
  }

  /** The total does not depend on which key `Total` happens to pick first. */
  lemma {:induction false} TotalRemove(bag: FeatureBag, w: string)
    requires w in bag
    ensures Total(bag) == bag[w] + Total(bag - {w})
    decreases |bag|
  {
    var v := AnyKey(bag);
    if v != w {
      var withoutV, withoutW := bag - {v}, bag - {w};
      assert withoutV.Keys == bag.Keys - {v};
      assert withoutW.Keys == bag.Keys - {w};
      assert |withoutV| < |bag| && |withoutW| < |bag|;
      TotalRemove(withoutV, w);
      TotalRemove(withoutW, v);
      assert withoutV - {w} == withoutW - {v};
    }
  }

  /** Bumping one count by one raises the total by one. */
  lemma TotalBump(bag: FeatureBag, w: string)
    ensures Total(bag[w := (if w in bag then bag[w] else 0) + 1]) == Total(bag) + 1
  {
    var after := bag[w := (if w in bag then bag[w] else 0) + 1];
    TotalRemove(after, w);
    assert after - {w} == bag - {w};
    if w in bag {
      TotalRemove(bag, w);
    } else {
      assert bag - {w} == bag;
    }
  }

  /** The counts of a bag add up to the length of the word list. */
  lemma {:induction false} BagTotal(words: seq<string>)
    ensures Total(Bag(words)) == |words|
  {
    if |words| > 0 {
      var s, w := words[..|words| - 1], words[|words| - 1];
      assert words == s + [w];
      BagTotal(s);
      BagSnoc(s, w);
      TotalBump(Bag(s), w);
    } else {
      assert Bag(words) == map[];
    }
  }

  /** Reordering the words leaves the bag unchanged. */
  lemma BagPermutation(a: seq<string>, b: seq<string>)
    requires multiset(a) == multiset(b)
    ensures Bag(a) == Bag(b)
  {
    assert forall w :: w in a <==> w in multiset(a);
    assert forall w :: w in b <==> w in multiset(b);
  }

  // ---------------------------------------------------------------------
  // is_useful_word

  /**
   * `is_useful_word(word)`: not a stopword and not a substring of
   * `string.punctuation` (so never the empty string).
   */
  function IsUsefulWord(stopwords: seq<string>, word: string): (useful: bool)
    ensures useful ==> word != "" && word !in stopwords
  {
    assert "" <= Punctuation[0..];
    word !in stopwords && !IsSubstring(word, Punctuation)
  }

  /** Every run of punctuation characters in `string.punctuation` order is rejected, e.g. `"()"`. */
  lemma PunctuationRunNotUseful(stopwords: seq<string>, i: nat, j: nat)
    requires i <= j <= |Punctuation|
    ensures !IsUsefulWord(stopwords, Punctuation[i..j])
  {
    RunIsSubstring(Punctuation, i, j);
  }

  /** A non-stopword with a character outside `string.punctuation` passes. */
  lemma ForeignCharUseful(stopwords: seq<string>, word: string, c: char)
    requires c in word && c !in Punctuation && word !in stopwords
    ensures IsUsefulWord(stopwords, word)
  {
    ForeignCharNotSubstring(word, Punctuation, c);
  }

  /**
   * The test is on substrings, not on characters: `"(("` is made only of
   * punctuation and still passes when it is not a stopword.
   */
  lemma RepeatedPunctuationUseful(stopwords: seq<string>)
    requires "((" !in stopwords
    ensures IsUsefulWord(stopwords, "((")
  {
    var before, after := Punctuation[..7], Punctuation[8..];
    assert Punctuation == before + ['('] + after;
    assert '(' !in before && '(' !in after;
    RepeatedCharNotSubstring(Punctuation, before, after, '(');
  }

  // ---------------------------------------------------------------------
  // remove_punctuation

  /** The characters of `[a-zA-Z0-9\s]`, which the substitution keeps. */
  predicate IsKept(c: char) {
    IsAsciiAlnum(c) || IsSpace(c)
  }

  /** No character of `string.punctuation` is kept. */
  lemma PunctuationNotKept()
    ensures forall c :: c in Punctuation ==> !IsKept(c)
  {
    forall c | c in Punctuation
      ensures !IsKept(c)
    {
    }
  }

  /** `re.sub(r'[^a-zA-Z0-9\s]', ' ', text)`: every other character becomes one space. */
  function RemovePunctuation(text: string): (r: string)
    ensures |r| == |text|
    ensures forall i :: 0 <= i < |text| && IsKept(text[i]) ==> r[i] == text[i]
    ensures forall i :: 0 <= i < |text| && !IsKept(text[i]) ==> r[i] == ' '
    ensures forall i :: 0 <= i < |r| ==> IsKept(r[i])
  {
    seq(|text|, i requires 0 <= i < |text| => if IsKept(text[i]) then text[i] else ' ')
  }

  /** Stripping punctuation twice is the same as once. */
  lemma RemovePunctuationIdempotent(text: string)
    ensures RemovePunctuation(RemovePunctuation(text)) == RemovePunctuation(text)
  {
  }

  // ---------------------------------------------------------------------
  // extract_features

  /** The lemma comprehension of `extract_features`: lemmatize the useful tokens, in order, dropping the others. */
  function LemmatizeUseful(ctx: Context, tokens: seq<string>): (lemmas: seq<string>)
    ensures |lemmas| <= |tokens|
    ensures forall l :: l in lemmas <==>
      exists t :: t in tokens && IsUsefulWord(ctx.stopwords, t) && l == ctx.lemmatize(t)
  {
    if |tokens| == 0 then []
    else
      var rest := LemmatizeUseful(ctx, tokens[1..]);
      assert forall t :: t in tokens <==> t == tokens[0] || t in tokens[1..];
      if IsUsefulWord(ctx.stopwords, tokens[0]) then [ctx.lemmatize(tokens[0])] + rest
      else rest
  }

  /** Without a useful token there is nothing to lemmatize. */
  lemma {:induction false} NoUsefulTokenNoLemma(ctx: Context, tokens: seq<string>)
    requires forall t :: t in tokens ==> !IsUsefulWord(ctx.stopwords, t)
    ensures LemmatizeUseful(ctx, tokens) == []
  {
    if |tokens| > 0 {
      NoUsefulTokenNoLemma(ctx, tokens[1..]);
    }
  }

  /** The lemmas of a single token: its lemma when it is useful, nothing otherwise. */
  lemma LemmatizeUsefulOne(ctx: Context, t: string)
    ensures LemmatizeUseful(ctx, [t]) == if IsUsefulWord(ctx.stopwords, t) then [ctx.lemmatize(t)] else []
  {
    assert [t][1..] == [];
  }

  /**
   * Lemmatizing splits over concatenation: the lemmas of `a + b` are those of
   * `a` followed by those of `b`, so order and repetitions are kept.
   */
  lemma {:induction false} LemmatizeUsefulAppend(ctx: Context, a: seq<string>, b: seq<string>)
    ensures LemmatizeUseful(ctx, a + b) == LemmatizeUseful(ctx, a) + LemmatizeUseful(ctx, b)
  {
    if |a| == 0 {
      assert a + b == b;
    } else {
      LemmatizeUsefulAppend(ctx, a[1..], b);
      LemmatizeUsefulCons(ctx, a[0], a[1..] + b);
      LemmatizeUsefulCons(ctx, a[0], a[1..]);
      assert a + b == [a[0]] + (a[1..] + b);
      assert a == [a[0]] + a[1..];
    }
  }

  /** One step of the comprehension: the first token's lemmas, then the rest's. */
  lemma LemmatizeUsefulCons(ctx: Context, t: string, rest: seq<string>)
    ensures LemmatizeUseful(ctx, [t] + rest) == LemmatizeUseful(ctx, [t]) + LemmatizeUseful(ctx, rest)
  {
    assert ([t] + rest)[1..] == rest;
    LemmatizeUsefulOne(ctx, t);
  }

  /** The `" ".join`, `lower()` and `re.sub` steps of `extract_features`. */
  function Normalize(lemmas: seq<string>): (document: string)
    ensures forall i :: 0 <= i < |document| ==> IsKept(document[i]) && !IsAsciiUpper(document[i])
  {
    RemovePunctuation(Lower(Join(" ", lemmas)))
  }

  /** The `split(" ")` filter of `extract_features`: keep the pieces that are non-empty and useful, in order. */
  function FilterWords(stopwords: seq<string>, pieces: seq<string>): (words: seq<string>)
    ensures |words| <= |pieces|
    ensures forall w :: w in words <==> w in pieces && w != "" && IsUsefulWord(stopwords, w)
  {
    if |pieces| == 0 then []
    else
      var rest := FilterWords(stopwords, pieces[1..]);
      assert forall w :: w in pieces <==> w == pieces[0] || w in pieces[1..];
      if pieces[0] != "" && IsUsefulWord(stopwords, pieces[0]) then [pieces[0]] + rest
      else rest
  }

  /** Filtering a single piece keeps it exactly when it is non-empty and useful. */
  lemma FilterWordsOne(stopwords: seq<string>, p: string)
    ensures FilterWords(stopwords, [p]) == if p != "" && IsUsefulWord(stopwords, p) then [p] else []
  {
    assert [p][1..] == [];
  }

  /**
   * Filtering splits over concatenation: the words kept from `a + b` are those
   * kept from `a` followed by those kept from `b`.
   */
  lemma {:induction false} FilterWordsAppend(stopwords: seq<string>, a: seq<string>, b: seq<string>)
    ensures FilterWords(stopwords, a + b) == FilterWords(stopwords, a) + FilterWords(stopwords, b)
  {
    if |a| == 0 {
      assert a + b == b;
    } else {
      FilterWordsAppend(stopwords, a[1..], b);
      assert (a + b)[0] == a[0];
      assert (a + b)[1..] == a[1..] + b;
    }
  }

  /** A kept word occurs as often as in the pieces; any other word not at all. */
  lemma {:induction false} FilterWordsCount(stopwords: seq<string>, pieces: seq<string>, w: string)
    ensures multiset(FilterWords(stopwords, pieces))[w] ==
      if w != "" && IsUsefulWord(stopwords, w) then multiset(pieces)[w] else 0
  {
    if |pieces| > 0 {
      FilterWordsCount(stopwords, pieces[1..], w);
      assert pieces == [pieces[0]] + pieces[1..];
    }
  }

  /**
   * What a word that survives the `split(" ")` filter looks like: non-empty, useful, made of
   * ASCII letters, digits and whitespace other than `' '`, with no upper-case letter.
   */
  predicate IsCleanWord(stopwords: seq<string>, w: string) {
    && w != ""
    && IsUsefulWord(stopwords, w)
    && forall i :: 0 <= i < |w| ==> IsKept(w[i]) && w[i] != ' ' && !IsAsciiUpper(w[i])
  }

  /** From the lemmas to the words the n-grams are built from: join, lower-case, substitute, split and filter. */
  function CleanWords(stopwords: seq<string>, lemmas: seq<string>): (words: seq<string>)
    ensures forall k :: 0 <= k < |words| ==> IsCleanWord(stopwords, words[k])
  {
    var document := Normalize(lemmas);
    var words := FilterWords(stopwords, Split(document, ' '));
    assert forall k :: 0 <= k < |words| ==> IsCleanWord(stopwords, words[k]) by {
      forall k | 0 <= k < |words|
        ensures IsCleanWord(stopwords, words[k])
      {
        var w := words[k];
        var pieces := Split(document, ' ');
        assert w in pieces;
        var m :| 0 <= m < |pieces| && pieces[m] == w;
        forall i | 0 <= i < |w|
          ensures IsKept(w[i]) && w[i] != ' ' && !IsAsciiUpper(w[i])
        {
          SplitChars(document, ' ', m, w[i]);
        }
      }
    }
    words
  }

  /** A clean word holds no character of `string.punctuation`, in particular no `'_'`. */
  lemma CleanWordHasNoPunctuation(stopwords: seq<string>, w: string)
    requires IsCleanWord(stopwords, w)
    ensures forall c :: c in w ==> c !in Punctuation
    ensures '_' !in w
  {
    PunctuationNotKept();
    assert '_' in Punctuation;
  }

  /** The final comprehension of `extract_features`: every 1-, 2- and 3-gram of the words, joined with `'_'`. */
  function Features(words: seq<string>): (features: seq<string>)
    ensures |features| == |Everygrams(words, 3)|
  {
    var grams := Everygrams(words, 3);
    seq(|grams|, j requires 0 <= j < |grams| => Join("_", grams[j]))
  }

  /** The words `extract_features` builds its n-grams from: tokenize, filter, lemmatize, normalize, split, filter. */
  function FilteredWords(ctx: Context, document: string): (words: seq<string>)
    ensures forall k :: 0 <= k < |words| ==> IsCleanWord(ctx.stopwords, words[k])
  {
    CleanWords(ctx.stopwords, LemmatizeUseful(ctx, ctx.tokenize(document)))
  }

  /** `extract_features(document)` */
  function ExtractFeatures(ctx: Context, document: string): (features: seq<string>)
    ensures forall j :: 0 <= j < |features| ==> features[j] != "" && !IsSubstring(features[j], Punctuation)
  {
    var words := FilteredWords(ctx, document);
    FeaturesAtWindows(ctx.stopwords, words);
    Features(words)
  }

  /** Filtering keeps a list whose every piece already passes, as it is. */
  lemma {:induction false} FilterKeepsClean(stopwords: seq<string>, words: seq<string>)
    requires forall k :: 0 <= k < |words| ==> IsCleanWord(stopwords, words[k])
    ensures FilterWords(stopwords, words) == words
  {
    if |words| > 0 {
      FilterKeepsClean(stopwords, words[1..]);
      assert words == [words[0]] + words[1..];
    }
  }

  /**
   * Re-running the join, lower-case, substitution, split and filter on their own output changes nothing: the words are
   * already lower-case, free of punctuation and of spaces, and useful.
   */
  lemma CleanWordsIdempotent(stopwords: seq<string>, lemmas: seq<string>)
    ensures CleanWords(stopwords, CleanWords(stopwords, lemmas)) == CleanWords(stopwords, lemmas)
  {
    var words := CleanWords(stopwords, lemmas);
    var joined := Join(" ", words);
    if |words| == 0 {
      assert Normalize(words) == "";
      assert Split("", ' ') == [""];
    } else {
      forall i | 0 <= i < |joined|
        ensures IsKept(joined[i]) && !IsAsciiUpper(joined[i])
      {
        JoinChars(" ", words, joined[i]);
      }
      assert Lower(joined) == joined;
      assert RemovePunctuation(joined) == joined;
      assert " " == [' '];
      SplitJoin(words, ' ');
      FilterKeepsClean(stopwords, words);
    }
  }

  /**
   * The features correspond one to one, in order, to the windows
   * `(start, length)` of `everygrams`. The feature at a window is the
   * `'_'`-join of the words it covers and splitting it at `'_'` gives those
   * words back; it is never empty and never a substring of `string.punctuation`.
   */
  lemma FeaturesAtWindows(stopwords: seq<string>, words: seq<string>)
    requires forall k :: 0 <= k < |words| ==> IsCleanWord(stopwords, words[k])
    ensures |Features(words)| == |Windows(|words|, 3, 0)|
    ensures forall j :: 0 <= j < |Features(words)| ==>
      var w := Windows(|words|, 3, 0)[j];
      && Features(words)[j] == Join("_", words[w.0..w.0 + w.1])
      && Split(Features(words)[j], '_') == words[w.0..w.0 + w.1]
      && Features(words)[j] != ""
      && !IsSubstring(Features(words)[j], Punctuation)
  {
    FeatureCount(words);
    forall j | 0 <= j < |Features(words)|
      ensures var w := Windows(|words|, 3, 0)[j];
        && Features(words)[j] == Join("_", words[w.0..w.0 + w.1])
        && Split(Features(words)[j], '_') == words[w.0..w.0 + w.1]
        && Features(words)[j] != ""
        && !IsSubstring(Features(words)[j], Punctuation)
    {
      CleanFeatureAtWindow(stopwords, words, j);
    }
  }

  /** There are as many features as windows. */
  lemma FeatureCount(words: seq<string>)
    ensures |Features(words)| == |Windows(|words|, 3, 0)|
  {
    EverygramsSlices(words, 3);
  }

  /** The feature at one window of filtered words. */
  lemma CleanFeatureAtWindow(stopwords: seq<string>, words: seq<string>, j: nat)
    requires forall k :: 0 <= k < |words| ==> IsCleanWord(stopwords, words[k])
    requires j < |Features(words)| && j < |Windows(|words|, 3, 0)|
    ensures var w := Windows(|words|, 3, 0)[j];
      && Features(words)[j] == Join("_", words[w.0..w.0 + w.1])
      && Split(Features(words)[j], '_') == words[w.0..w.0 + w.1]
      && Features(words)[j] != ""
      && !IsSubstring(Features(words)[j], Punctuation)
  {
    var w := FeatureAtWindow(words, j);
    CleanGramFeature(stopwords, words, w.0, w.0 + w.1, Features(words)[j]);
  }

  /** The `'_'`-join of a non-empty run of filtered words. */
  lemma CleanGramFeature(stopwords: seq<string>, words: seq<string>, lo: nat, hi: nat, feature: string)
    requires forall k :: 0 <= k < |words| ==> IsCleanWord(stopwords, words[k])
    requires lo < hi <= |words| && feature == Join("_", words[lo..hi])
    ensures Split(feature, '_') == words[lo..hi]
    ensures feature != ""
    ensures !IsSubstring(feature, Punctuation)
  {
    var gram := words[lo..hi];
    forall k | 0 <= k < |gram|
      ensures IsCleanWord(stopwords, gram[k])
    {
      assert gram[k] == words[lo + k];
    }
    GramFeature(stopwords, gram);
  }

  /** The feature at position `j` joins the words of the `j`-th window. */
  lemma FeatureAtWindow(words: seq<string>, j: nat) returns (w: (nat, nat))
    requires j < |Features(words)|
    ensures j < |Windows(|words|, 3, 0)| && w == Windows(|words|, 3, 0)[j]
    ensures Features(words)[j] == Join("_", words[w.0..w.0 + w.1])
  {
    EverygramsSlices(words, 3);
    w := Windows(|words|, 3, 0)[j];
    assert Everygrams(words, 3)[j] == words[w.0..w.0 + w.1];
  }

  /** The `'_'`-join of one or more filtered words. */
  lemma GramFeature(stopwords: seq<string>, gram: seq<string>)
    requires |gram| >= 1
    requires forall k :: 0 <= k < |gram| ==> IsCleanWord(stopwords, gram[k])
    ensures Split(Join("_", gram), '_') == gram
    ensures Join("_", gram) != ""
    ensures !IsSubstring(Join("_", gram), Punctuation)
  {
    var feature := Join("_", gram);
    forall k | 0 <= k < |gram|
      ensures '_' !in gram[k]
    {
      CleanWordHasNoPunctuation(stopwords, gram[k]);
    }
    assert "_" == ['_'];
    SplitJoin(gram, '_');
    CleanWordHasNoPunctuation(stopwords, gram[0]);
    assert gram[0][0] in feature;
    ForeignCharNotSubstring(feature, Punctuation, gram[0][0]);
  }

  /**
   * The 1-gram features are the filtered words: each word has exactly one
   * unigram window and the feature there is the word itself, so no stopword
   * and no substring of `string.punctuation` is ever a unigram feature.
   */
  lemma {:induction false} UnigramFeatures(stopwords: seq<string>, words: seq<string>)
    requires forall k :: 0 <= k < |words| ==> IsCleanWord(stopwords, words[k])
    ensures |Features(words)| == |Windows(|words|, 3, 0)|
    ensures forall i :: 0 <= i < |words| ==> (i, 1) in Windows(|words|, 3, 0) && words[i] in Features(words)
    ensures forall j :: 0 <= j < |Features(words)| && Windows(|words|, 3, 0)[j].1 == 1 ==>
      && Features(words)[j] == words[Windows(|words|, 3, 0)[j].0]
      && Features(words)[j] !in stopwords
      && !IsSubstring(Features(words)[j], Punctuation)
  {
    FeaturesAtWindows(stopwords, words);
    var ws := Windows(|words|, 3, 0);
    var features := Features(words);
    forall j | 0 <= j < |features| && ws[j].1 == 1
      ensures features[j] == words[ws[j].0]
    {
      assert words[ws[j].0..ws[j].0 + 1] == [words[ws[j].0]];
    }
    forall i | 0 <= i < |words|
      ensures (i, 1) in ws && words[i] in features
    {
      var j := UnigramPosition(words, i);
      assert features[j] == words[ws[j].0];
    }
  }

  /** The position of the unigram window of word `i`. */
  lemma UnigramPosition(words: seq<string>, i: nat) returns (j: nat)
    requires i < |words|
    ensures j < |Windows(|words|, 3, 0)| && Windows(|words|, 3, 0)[j] == (i, 1)
  {
    WindowsComplete(|words|, 3, 0, (i, 1));
    j :| j < |Windows(|words|, 3, 0)| && Windows(|words|, 3, 0)[j] == (i, 1);
  }

  /** Over `k` filtered words there are `k + max(k-1, 0) + max(k-2, 0)` features; none for no words. */
  lemma ExtractFeaturesCount(ctx: Context, document: string)
    ensures var k := |FilteredWords(ctx, document)|;
      |ExtractFeatures(ctx, document)| == k + Max0(k - 1) + Max0(k - 2)
  {
    EverygramsCount(FilteredWords(ctx, document));
  }

  /** A feature of two or more words holds a `'_'`, so it is no stopword that lacks one. */
  lemma FeatureNotStopword(stopwords: seq<string>, words: seq<string>, j: nat)
    requires forall k :: 0 <= k < |words| ==> IsCleanWord(stopwords, words[k])
    requires forall s :: s in stopwords ==> '_' !in s
    requires j < |Features(words)|
    ensures Features(words)[j] !in stopwords
  {
    var w := FeatureAtWindow(words, j);
    var gram := words[w.0..w.0 + w.1];
    var feature := Features(words)[j];
    if w.1 == 1 {
      assert gram == [words[w.0]];
      assert IsCleanWord(stopwords, words[w.0]);
    } else {
      CleanGramFeature(stopwords, words, w.0, w.0 + w.1, Features(words)[j]);
      if '_' !in feature {
        SplitJoin([feature], '_');
        assert false;
      }
    }
  }

  /**
   * Every key of the bag handed to the classifier is a non-empty feature that
   * is not a substring of `string.punctuation`; when no stopword contains
   * `'_'` (true of the English list), no key is a stopword either.
   */
  lemma BagKeysUseful(ctx: Context, document: string)
    ensures forall f :: f in Bag(ExtractFeatures(ctx, document)) ==>
      f != "" && !IsSubstring(f, Punctuation)
    ensures (forall s :: s in ctx.stopwords ==> '_' !in s) ==>
      forall f :: f in Bag(ExtractFeatures(ctx, document)) ==> f !in ctx.stopwords
  {
    var words := FilteredWords(ctx, document);
    var features := ExtractFeatures(ctx, document);
    FeaturesAtWindows(ctx.stopwords, words);
    forall f | f in Bag(features)
      ensures f != "" && !IsSubstring(f, Punctuation)
      ensures (forall s :: s in ctx.stopwords ==> '_' !in s) ==> f !in ctx.stopwords
    {
      var j :| 0 <= j < |features| && features[j] == f;
      if forall s :: s in ctx.stopwords ==> '_' !in s {
        FeatureNotStopword(ctx.stopwords, words, j);
      }
    }
  }

  /**
   * When every token is a stopword (or there are none), nothing survives the
   * filters and `classify` receives the empty bag.
   */
  lemma AllStopwordsEmptyBag(ctx: Context, review: string)
    requires forall t :: t in ctx.tokenize(review) ==> t in ctx.stopwords
    ensures FilteredWords(ctx, review) == []
    ensures Bag(ExtractFeatures(ctx, review)) == map[]
  {
    var lemmas := LemmatizeUseful(ctx, ctx.tokenize(review));
    NoUsefulTokenNoLemma(ctx, ctx.tokenize(review));
    assert Normalize(lemmas) == "";
    assert Split("", ' ') == [""];
    assert FilterWords(ctx.stopwords, [""]) == [];
  }

  /** The lemma comprehension on the tokens of the example below: only "this" is a stopword as written. */
  lemma ExampleLemmas(ctx: Context)
    requires forall w :: ctx.lemmatize(w) == w
    requires ctx.stopwords == ["i", "this"]
    ensures LemmatizeUseful(ctx, ["I", "love", "this", "product"]) == ["I", "love", "product"]
  {
    var tokens := ["I", "love", "this", "product"];
    PunctuationNotKept();
    ForeignCharUseful(ctx.stopwords, "I", 'I');
    ForeignCharUseful(ctx.stopwords, "love", 'l');
    ForeignCharUseful(ctx.stopwords, "product", 'p');
    assert tokens[1..] == ["love", "this", "product"];
    assert tokens[1..][1..] == ["this", "product"];
    assert tokens[1..][1..][1..] == ["product"];
    assert tokens[1..][1..][1..][1..] == [];
    assert "this" in ctx.stopwords;
    assert LemmatizeUseful(ctx, ["product"]) == ["product"];
    assert LemmatizeUseful(ctx, ["this", "product"]) == ["product"];
    assert LemmatizeUseful(ctx, ["love", "this", "product"]) == ["love", "product"];
  }

  /** Join, lower-case, substitution and split on the lemmas of the example below. */
  lemma ExampleNormalize()
    ensures Split(Normalize(["I", "love", "product"]), ' ') == ["i", "love", "product"]
  {
    var lowered := "i love product";
    ExampleJoinLower();
    ExampleKeepAll(lowered);
    var pieces := ["i", "love", "product"];
    assert Join([' '], pieces) == lowered by {
      assert pieces[1..] == ["love", "product"] && pieces[1..][1..] == ["product"];
    }
    SplitJoin(pieces, ' ');
  }

  /** Joining and lower-casing the example lemmas. */
  lemma ExampleJoinLower()
    ensures Lower(Join(" ", ["I", "love", "product"])) == "i love product"
  {
    var lemmas := ["I", "love", "product"];
    assert Join(" ", lemmas) == "I" + " love product" by {
      assert lemmas[1..] == ["love", "product"] && lemmas[1..][1..] == ["product"];
      assert Join(" ", ["love", "product"]) == "love" + " " + "product";
    }
    ExampleLower("I", " love product");
  }

  /** Lower-casing a capital `I` followed by a text without capitals. */
  lemma ExampleLower(head: string, tail: string)
    requires head == "I" && forall c :: c in tail ==> !IsAsciiUpper(c)
    ensures Lower(head + tail) == "i" + tail
  {
    var r := Lower(head + tail);
    assert r[0] == 'i';
    forall i | 1 <= i < |r|
      ensures r[i] == tail[i - 1]
    {
      assert (head + tail)[i] == tail[i - 1];
    }
  }

  /** The substitution leaves a text of kept characters alone. */
  lemma ExampleKeepAll(text: string)
    requires forall c :: c in text ==> IsKept(c)
    ensures RemovePunctuation(text) == text
  {
  }

  /** The n-gram comprehension on the words of the example below. */
  lemma ExampleFeatures()
    ensures Features(["love", "product"]) == ["love", "love_product", "product"]
  {
    var words := ["love", "product"];
    var last := ["product"];
    assert words[1..] == last && last[1..] == [];
    assert words[..1] == ["love"] && words[..2] == words && last[..1] == last;
    assert Prefixes(words, 2) == [["love"], words];
    assert Prefixes(last, 1) == [last];
    assert Everygrams(words, 3) == [["love"], words, last];
    assert Join("_", words) == "love_product";
  }

  /** `bag_of_words` on the features of the example below. */
  lemma ExampleBag()
    ensures Bag(["love", "love_product", "product"]) == map["love" := 1, "love_product" := 1, "product" := 1]
  {
    assert Bag([]) == map[];
    BagSnoc([], "love");
    assert [] + ["love"] == ["love"];
    BagSnoc(["love"], "love_product");
    assert ["love"] + ["love_product"] == ["love", "love_product"];
    BagSnoc(["love", "love_product"], "product");
    assert ["love", "love_product"] + ["product"] == ["love", "love_product", "product"];
  }

  /** The `split(" ")` filter on the pieces of the example below: "i" is a stopword once lower-cased. */
  lemma ExampleFilter(stopwords: seq<string>)
    requires stopwords == ["i", "this"]
    ensures FilterWords(stopwords, ["i", "love", "product"]) == ["love", "product"]
  {
    var pieces := ["i", "love", "product"];
    PunctuationNotKept();
    ForeignCharUseful(stopwords, "love", 'l');
    ForeignCharUseful(stopwords, "product", 'p');
    assert pieces[1..] == ["love", "product"];
    assert pieces[1..][1..] == ["product"];
    assert pieces[1..][1..][1..] == [];
  }

  /**
   * "I love this product", with the stopwords "i" and "this" and a lemmatizer
   * that leaves these words alone: "this" goes in the lemma comprehension, "I"
   * passes it (the list is lower-case) and goes in the `split(" ")` filter once
   * lower-cased, and the
   * bag holds `love`, `love_product` and `product` once each.
   */
  lemma LoveProductExample(ctx: Context)
    requires ctx.tokenize("I love this product") == ["I", "love", "this", "product"]
    requires forall w :: ctx.lemmatize(w) == w
    requires ctx.stopwords == ["i", "this"]
    ensures FilteredWords(ctx, "I love this product") == ["love", "product"]
    ensures Bag(ExtractFeatures(ctx, "I love this product")) ==
      map["love" := 1, "love_product" := 1, "product" := 1]
  {
    ExampleLemmas(ctx);
    ExampleNormalize();
    ExampleFilter(ctx.stopwords);
    ExampleFeatures();
    ExampleBag();
  }

  // ---------------------------------------------------------------------
  // get_sentiment

  /** `get_sentiment(review)`: the classifier's label for the bag of the review's features, unmodified. */
  method GetSentiment(ctx: Context, review: string) returns (sentiment: string)
    ensures sentiment == ctx.classify(Bag(ExtractFeatures(ctx, review)))
  {
    var features := ExtractFeatures(ctx, review);
    var bag := BagOfWords(features);
    sentiment := ctx.classify(bag);
  }
}
