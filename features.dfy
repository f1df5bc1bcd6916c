/** The feature builder for POS-tagger training: CoNLL sentence
    segmentation, affix features, tag normalisation, and the 14-column
    tab-separated feature lines grouped into blank-line-separated blocks. */
module Features {
  import opened PyStrings

  /** Prefixes of length 1..PREFIX_LEN and suffixes of length 1..SUFFIX_LEN. */
  const PREFIX_LEN: nat := 4
  const SUFFIX_LEN: nat := 7

  /** Columns of a feature line: token, 4 prefixes, 7 suffixes, length class, tag. */
  const FIELD_COUNT: nat := 1 + PREFIX_LEN + SUFFIX_LEN + 2

  // ---------------------------------------------------------------------
  // Affix features

  /** `affix_feats(token, length, type_aff)`: the sentinel "NULL" when the
      token is shorter than `length`; otherwise its first `length` code
      points when `typeAff` is 0 and its last `length` otherwise. */
  function AffixFeats(token: String, length: nat, typeAff: int): (r: String)
    ensures |token| < length ==> r == "NULL"
    ensures |token| >= length ==> |r| == length
    ensures |token| >= length && typeAff == 0 ==> r + token[length..] == token
    ensures |token| >= length && typeAff != 0 ==> token[..|token| - length] + r == token
  {
    if |token| < length then "NULL"
    else if typeAff == 0 then token[..length]
    else token[|token| - length..]
  }

  /** At length 4 the sentinel collides with a real affix: the token "NULL"
      has "NULL" as its four-character prefix. */
  lemma AffixNullCollides()
    ensures AffixFeats("NULL", 4, 0) == "NULL" && |"NULL"| >= 4
  {
    assert "NULL"[..4] == "NULL";
  }

  /** The sentinel is ambiguous only for four-character affixes: for every
      other length, "NULL" comes back exactly when the token is too short. */
  lemma AffixNullExactly(token: String, length: nat, typeAff: int)
    requires length != |"NULL"|
    ensures AffixFeats(token, length, typeAff) == "NULL" <==> |token| < length
  {
  }

  /** An affix as long as the token is the whole token, never "NULL"
      (so a one-character token has itself as its length-1 affixes). */
  lemma {:induction false} AffixWholeToken(token: String, typeAff: int)
    ensures AffixFeats(token, |token|, typeAff) == token
  {
    assert token[|token|..] == [];
    assert token[..0] == [];
  }

  /** An affix holds no character that is in neither the token nor "NULL". */
  lemma {:induction false} AffixKeepsOut(token: String, length: nat, typeAff: int, c: char)
    requires c !in token && c !in "NULL"
    ensures c !in AffixFeats(token, length, typeAff)
  {
    if |token| >= length {
      if typeAff == 0 {
        assert forall i :: 0 <= i < length ==> token[..length][i] == token[i];
      } else {
        var suffix := token[|token| - length..];
        assert forall i :: 0 <= i < |suffix| ==> suffix[i] == token[|token| - length + i];
      }
    }
  }

  /** The affixes of lengths 1..n on one side, shortest first. */
  function Affixes(token: String, n: nat, typeAff: int): (r: seq<String>)
    ensures |r| == n
    ensures forall i :: 0 <= i < n ==> r[i] == AffixFeats(token, i + 1, typeAff)
  {
    if n == 0 then [] else Affixes(token, n - 1, typeAff) + [AffixFeats(token, n, typeAff)]
  }

  // ---------------------------------------------------------------------
  // Length class and tag normalisation

  /** "LESS" for tokens of at most four code points, "MORE" for longer ones. */
  function LengthClass(token: String): (r: String)
    ensures r == "LESS" <==> |token| <= 4
    ensures r == "MORE" <==> |token| > 4
  {
    if |token| <= 4 then "LESS" else "MORE"
  }

  /** `tag.replace('__', '_').replace('-', '_')`. */
  function NormaliseTag(tag: String): (r: String)
    ensures |r| <= |tag|
  {
    ReplaceAll(ReplaceAll(tag, "__", "_"), "-", "_")
  }

  /** A normalised tag holds no hyphen. */
  lemma NormaliseTagNoHyphen(tag: String)
    ensures '-' !in NormaliseTag(tag)
  {
    ReplaceCharRemoves(ReplaceAll(tag, "__", "_"), '-', '_');
  }

  /** The hyphen step in full: after the first replace, the tag is split at
      its hyphens and joined again with underscores. */
  lemma NormaliseTagHyphens(tag: String)
    ensures NormaliseTag(tag) == JoinWith(SplitOn(ReplaceAll(tag, "__", "_"), '-'), '_')
  {
    ReplaceCharIsJoinSplit(ReplaceAll(tag, "__", "_"), '-', '_');
  }

  /** A tag with neither a hyphen nor a double underscore is left as it is. */
  lemma NormaliseTagUnchanged(tag: String)
    requires '-' !in tag
    requires forall i :: !OccursAt(tag, "__", i)
    ensures NormaliseTag(tag) == tag
  {
    ReplaceAbsent(tag, "__", "_");
    forall i ensures !OccursAt(tag, "-", i) {
      if 0 <= i && i + 1 <= |tag| {
        assert tag[i..i + 1] == [tag[i]];
        assert tag[i] != '-';
      }
    }
    ReplaceAbsent(tag, "-", "_");
  }

  /** Normalisation adds no character except '_'. */
  lemma NormaliseTagKeepsOut(tag: String, c: char)
    requires c !in tag && c != '_'
    ensures c !in NormaliseTag(tag)
  {
    ReplaceKeepsOut(tag, "__", "_", c);
    ReplaceKeepsOut(ReplaceAll(tag, "__", "_"), "-", "_", c);
  }

  /** Normalisation is not idempotent: "___" becomes "__", which becomes "_";
      and "-_" becomes "__". */
  lemma NormaliseTagNotIdempotent()
    ensures NormaliseTag("___") == "__"
    ensures NormaliseTag(NormaliseTag("___")) == "_"
    ensures NormaliseTag("-_") == "__"
  {
    assert ReplaceAll("___", "__", "_") == "__";
    assert ReplaceAll("__", "__", "_") == "_";
    assert ReplaceAll("__", "-", "_") == "__";
    assert ReplaceAll("_", "-", "_") == "_";
    assert ReplaceAll("-_", "__", "_") == "-_";
    assert ReplaceAll("-_", "-", "_") == "__";
  }

  // ---------------------------------------------------------------------
  // One token's feature line

  /** The columns of one feature line, in their fixed order. */
  function FeatureFields(token: String, tag: String): (f: seq<String>)
    ensures |f| == FIELD_COUNT
    ensures f[0] == token
    ensures forall k :: 1 <= k <= PREFIX_LEN ==> f[k] == AffixFeats(token, k, 0)
    ensures forall k :: 1 <= k <= SUFFIX_LEN ==> f[PREFIX_LEN + k] == AffixFeats(token, k, 1)
    ensures f[FIELD_COUNT - 2] == LengthClass(token)
    ensures f[FIELD_COUNT - 1] == NormaliseTag(tag)
  {
    [token] + Affixes(token, PREFIX_LEN, 0) + Affixes(token, SUFFIX_LEN, 1)
      + [LengthClass(token), NormaliseTag(tag)]
  }

  /** One token's feature line: its columns joined by tabs, then a newline. */
  function FeatureLine(token: String, tag: String): String
  {
    JoinWith(FeatureFields(token, tag), '\t') + "\n"
  }

  /** The tab join of the columns is the terminated columns before the
      last one, then the last one. */
  lemma JoinColumnsLast(t: String, p: seq<String>, q: seq<String>, c: String, g: String)
    ensures JoinWith([t] + p + q + [c, g], '\t') == Terminated([t] + p + q + [c], '\t') + g
  {
    var f := [t] + p + q + [c, g];
    assert f[..|f| - 1] == [t] + p + q + [c] && f[|f| - 1] == g;
    JoinIsTerminated(f, '\t');
  }

  /** Terminating the columns before the last one, group by group. */
  lemma TerminatedColumns(t: String, p: seq<String>, q: seq<String>, c: String)
    ensures Terminated([t] + p + q + [c], '\t') == t + "\t" + Terminated(p, '\t') + Terminated(q, '\t') + c + "\t"
  {
    assert [t] + p + q + [c] == ([t] + p) + (q + [c]);
    TerminatedAppend([t] + p, q + [c], '\t');
    TerminatedAppend([t], p, '\t');
    TerminatedAppend(q, [c], '\t');
    TerminatedOne(t, '\t');
    TerminatedOne(c, '\t');
  }

  /** Joining columns `t`, `p`, `q`, `c`, `g` with tabs and adding a
      newline is the same as writing every column but the last followed by
      a tab, then the last column and a newline. */
  lemma JoinColumns(t: String, p: seq<String>, q: seq<String>, c: String, g: String)
    ensures JoinWith([t] + p + q + [c, g], '\t') + "\n"
      == t + "\t" + Terminated(p, '\t') + Terminated(q, '\t') + c + "\t" + g + "\n"
  {
    JoinColumnsLast(t, p, q, c, g);
    TerminatedColumns(t, p, q, c);
  }

  /** The feature line as the source builds it with `+=`: every column but
      the tag followed by a tab, then the tag and a newline. */
  lemma FeatureLineBuilt(token: String, tag: String)
    ensures FeatureLine(token, tag) ==
      token + "\t" + Terminated(Affixes(token, PREFIX_LEN, 0), '\t')
      + Terminated(Affixes(token, SUFFIX_LEN, 1), '\t')
      + LengthClass(token) + "\t" + NormaliseTag(tag) + "\n"
  {
    var p := Affixes(token, PREFIX_LEN, 0);
    var q := Affixes(token, SUFFIX_LEN, 1);
    assert FeatureFields(token, tag) == [token] + p + q + [LengthClass(token), NormaliseTag(tag)];
    JoinColumns(token, p, q, LengthClass(token), NormaliseTag(tag));
  }

  /** When neither token nor tag holds a tab, splitting a feature line
      (without its newline) on tabs gives back exactly its 14 columns. */
  lemma FeatureLineFields(token: String, tag: String)
    requires '\t' !in token && '\t' !in tag
    ensures var line := FeatureLine(token, tag);
      line[|line| - 1] == '\n' && SplitOn(line[..|line| - 1], '\t') == FeatureFields(token, tag)
  {
    var f := FeatureFields(token, tag);
    var line := FeatureLine(token, tag);
    assert line[..|line| - 1] == JoinWith(f, '\t');
    forall k | 0 <= k < |f| ensures '\t' !in f[k] {
      if 1 <= k <= PREFIX_LEN {
        AffixKeepsOut(token, k, 0, '\t');
      } else if PREFIX_LEN < k <= PREFIX_LEN + SUFFIX_LEN {
        AffixKeepsOut(token, k - PREFIX_LEN, 1, '\t');
      } else if k == |f| - 1 {
        NormaliseTagKeepsOut(tag, '\t');
      }
    }
    SplitJoin(f, '\t');
  }

  /** A feature line holds exactly one newline, at its end, when neither
      token nor tag holds one. */
  lemma FeatureLineNewlines(token: String, tag: String)
    requires '\n' !in token && '\n' !in tag
    ensures Count(FeatureLine(token, tag), '\n') == 1
    ensures FeatureLine(token, tag)[|FeatureLine(token, tag)| - 1] == '\n'
  {
    var f := FeatureFields(token, tag);
    var body := JoinWith(f, '\t');
    forall k | 0 <= k < |f| ensures '\n' !in f[k] {
      if 1 <= k <= PREFIX_LEN {
        AffixKeepsOut(token, k, 0, '\n');
      } else if PREFIX_LEN < k <= PREFIX_LEN + SUFFIX_LEN {
        AffixKeepsOut(token, k - PREFIX_LEN, 1, '\n');
      } else if k == |f| - 1 {
        NormaliseTagKeepsOut(tag, '\n');
      }
    }
    JoinKeepsOut(f, '\t', '\n');
    CountAppend(body, "\n", '\n');
    CountAbsent(body, '\n');
  }

  /** A feature line is never blank: its length class is visible. */
  lemma FeatureLineVisible(token: String, tag: String)
    ensures !AllSpace(FeatureLine(token, tag))
  {
    var f := FeatureFields(token, tag);
    assert !IsSpace(f[FIELD_COUNT - 2][0]);
    JoinVisible(f, '\t', FIELD_COUNT - 2);
    AllSpaceAppend(JoinWith(f, '\t'), "\n");
  }

  // ---------------------------------------------------------------------
  // Reading the token and the tag of an annotated line

  /** "conll" selects the CoNLL layout; every other value selects SSF. */
  predicate IsConll(dataType: String) {
    dataType == "conll"
  }

  /** The token and the tag of one annotated line. */
  datatype Annotation = Annotation(token: String, tag: String)

  /** The source indexes fields 1 and 2 of an SSF line, which fails (an
      IndexError) on a non-empty line with fewer than three fields; empty
      lines are skipped before any indexing. */
  predicate LineFieldsPresent(line: String, dataType: String) {
    line == [] || IsConll(dataType) || |SplitOn(line, '\t')| >= 3
  }

  predicate SentenceFieldsPresent(sentence: String, dataType: String) {
    forall j :: 0 <= j < |SplitOn(sentence, '\n')| ==> LineFieldsPresent(SplitOn(sentence, '\n')[j], dataType)
  }

  /** Field `i` of a split line, or the empty string past its end; only
      reached past the end outside LineFieldsPresent. */
  function Field(fields: seq<String>, i: nat): String
  {
    if i < |fields| then fields[i] else []
  }

  /** CoNLL: first and last tab field. SSF: fields 1 and 2. */
  function ReadAnnotation(line: String, dataType: String): (a: Annotation)
    ensures '\t' !in a.token && '\t' !in a.tag
    ensures '\n' !in line ==> '\n' !in a.token && '\n' !in a.tag
  {
    var fields := SplitOn(line, '\t');
    SplitOnChars(line, '\t');
    if IsConll(dataType) then Annotation(fields[0], fields[|fields| - 1])
    else Annotation(Field(fields, 1), Field(fields, 2))
  }

  /** In CoNLL a line's token is its first tab field and its tag the last;
      in SSF they are fields 1 and 2. A CoNLL line without a tab is its own
      token and its own tag. */
  lemma ReadAnnotationFields(line: String, dataType: String)
    requires line != [] && LineFieldsPresent(line, dataType)
    ensures var f := SplitOn(line, '\t');
      if IsConll(dataType) then ReadAnnotation(line, dataType) == Annotation(f[0], f[|f| - 1])
      else ReadAnnotation(line, dataType) == Annotation(f[1], f[2])
    ensures IsConll(dataType) && '\t' !in line ==> ReadAnnotation(line, dataType) == Annotation(line, line)
  {
    if '\t' !in line {
      SplitOnAbsent(line, '\t');
    }
  }

  // ---------------------------------------------------------------------
  // Sentences and the whole feature text

  /** What one line of a sentence contributes: nothing for an empty line,
      else its feature line. */
  function LineFeatures(line: String, dataType: String): String
  {
    if line == [] then []
    else
      var a := ReadAnnotation(line, dataType);
      FeatureLine(a.token, a.tag)
  }

  function LinesFeatures(lines: seq<String>, dataType: String): String
  {
    if lines == [] then []
    else LinesFeatures(lines[..|lines| - 1], dataType) + LineFeatures(lines[|lines| - 1], dataType)
  }

  /** `sentence_features` after the inner loop over `sentence.split('\n')`. */
  function SentenceFeatures(sentence: String, dataType: String): String
  {
    LinesFeatures(SplitOn(sentence, '\n'), dataType)
  }

  /** A sentence's block: its feature lines and one more newline, or nothing
      when those lines are blank. */
  function Block(sentence: String, dataType: String): (r: String)
    ensures r != [] ==> r[|r| - 1] == '\n'
  {
    var sf := SentenceFeatures(sentence, dataType);
    if Strip(sf) != [] then sf + "\n" else []
  }

  /** `f` of every element, concatenated in order. */
  function ConcatMap(xs: seq<String>, f: String -> String): String
  {
    if xs == [] then [] else ConcatMap(xs[..|xs| - 1], f) + f(xs[|xs| - 1])
  }

  lemma {:induction false} ConcatMapAppend(a: seq<String>, b: seq<String>, f: String -> String)
    ensures ConcatMap(a + b, f) == ConcatMap(a, f) + ConcatMap(b, f)
    decreases |b|
  {
    if b == [] {
      assert a + b == a;
    } else {
      var b' := b[..|b| - 1];
      assert (a + b)[..|a + b| - 1] == a + b';
      assert (a + b)[|a + b| - 1] == b[|b| - 1];
      ConcatMapAppend(a, b', f);
    }
  }

  /** The whole text: every sentence's block, in order. */
  function FeaturesText(sentences: seq<String>, dataType: String): String
  {
    ConcatMap(sentences, s => Block(s, dataType))
  }

  /** Number of non-empty lines. */
  function NonEmptyCount(lines: seq<String>): nat
  {
    if lines == [] then 0
    else NonEmptyCount(lines[..|lines| - 1]) + (if lines[|lines| - 1] != [] then 1 else 0)
  }

  /** Feature lines are blank only when every line of the sentence is empty. */
  lemma {:induction false} LinesFeaturesBlank(lines: seq<String>, dataType: String)
    ensures AllSpace(LinesFeatures(lines, dataType)) <==> forall j :: 0 <= j < |lines| ==> lines[j] == []
  {
    if lines != [] {
      var init := lines[..|lines| - 1];
      var last := lines[|lines| - 1];
      LinesFeaturesBlank(init, dataType);
      var a := LinesFeatures(init, dataType);
      var b := LineFeatures(last, dataType);
      AllSpaceAppend(a, b);
      if last != [] {
        var an := ReadAnnotation(last, dataType);
        FeatureLineVisible(an.token, an.tag);
      }
      assert (forall j :: 0 <= j < |lines| ==> lines[j] == [])
        <==> (forall j :: 0 <= j < |init| ==> init[j] == []) && last == [] by {
        if forall j :: 0 <= j < |init| ==> init[j] == [] {
          assert forall j :: 0 <= j < |init| ==> lines[j] == init[j];
        }
      }
    }
  }

  /** Every non-empty line yields exactly one feature line, each ending in
      the one newline it holds; empty lines yield nothing. */
  lemma {:induction false} LinesFeaturesNewlines(lines: seq<String>, dataType: String)
    requires forall j :: 0 <= j < |lines| ==> '\n' !in lines[j]
    ensures Count(LinesFeatures(lines, dataType), '\n') == NonEmptyCount(lines)
  {
    if lines != [] {
      var init := lines[..|lines| - 1];
      var last := lines[|lines| - 1];
      LinesFeaturesNewlines(init, dataType);
      CountAppend(LinesFeatures(init, dataType), LineFeatures(last, dataType), '\n');
      if last != [] {
        var an := ReadAnnotation(last, dataType);
        FeatureLineNewlines(an.token, an.tag);
      }
    }
  }

  /** Some line is non-empty. */
  predicate HasLine(lines: seq<String>) {
    exists j :: 0 <= j < |lines| && lines[j] != []
  }

  /** The feature lines of some lines are visible exactly when one of
      those lines is non-empty. */
  lemma LinesVisible(lines: seq<String>, dataType: String)
    ensures Strip(LinesFeatures(lines, dataType)) != [] <==> HasLine(lines)
  {
    LinesFeaturesBlank(lines, dataType);
    if HasLine(lines) {
      var j :| 0 <= j < |lines| && lines[j] != [];
      assert !AllSpace(LinesFeatures(lines, dataType));
    } else {
      assert forall j :: 0 <= j < |lines| ==> lines[j] == [];
    }
  }

  /** A sentence contributes a block exactly when it has a non-empty line. */
  lemma BlockExists(sentence: String, dataType: String)
    ensures Block(sentence, dataType) != [] <==> HasLine(SplitOn(sentence, '\n'))
  {
    LinesVisible(SplitOn(sentence, '\n'), dataType);
  }

  /** A block is the sentence's feature lines, one per non-empty line,
      followed by one more newline, so it ends in an empty line. */
  lemma BlockContents(sentence: String, dataType: String)
    requires Block(sentence, dataType) != []
    ensures Block(sentence, dataType) == SentenceFeatures(sentence, dataType) + "\n"
    ensures Count(SentenceFeatures(sentence, dataType), '\n') == NonEmptyCount(SplitOn(sentence, '\n'))
  {
    var lines := SplitOn(sentence, '\n');
    assert SentenceFeatures(sentence, dataType) == LinesFeatures(lines, dataType);
    LinesFeaturesNewlines(lines, dataType);
  }

  /** Blocks appear in the order of their sentences. */
  lemma FeaturesTextAppend(a: seq<String>, b: seq<String>, dataType: String)
    ensures FeaturesText(a + b, dataType) == FeaturesText(a, dataType) + FeaturesText(b, dataType)
  {
    ConcatMapAppend(a, b, s => Block(s, dataType));
  }

  /** One more affix column appended to the columns before it. */
  lemma AffixColumnStep(head: String, token: String, i: nat, typeAff: int)
    requires i >= 1
    ensures head + Terminated(Affixes(token, i, typeAff), '\t')
      == head + Terminated(Affixes(token, i - 1, typeAff), '\t') + AffixFeats(token, i, typeAff) + "\t"
  {
    var before := Affixes(token, i - 1, typeAff);
    var affix := AffixFeats(token, i, typeAff);
    assert Affixes(token, i, typeAff) == before + [affix];
    TerminatedSnoc(head, before, affix, '\t');
  }

  /** One more line of a sentence, as the inner loop takes it. */
  lemma LinesFeaturesStep(lines: seq<String>, j: nat, dataType: String)
    requires j < |lines|
    ensures LinesFeatures(lines[..j + 1], dataType) == LinesFeatures(lines[..j], dataType) + LineFeatures(lines[j], dataType)
  {
    assert lines[..j + 1][..j] == lines[..j];
  }

  /** One more sentence, as the outer loop takes it. */
  lemma FeaturesTextStep(sentences: seq<String>, s: nat, dataType: String)
    requires s < |sentences|
    ensures FeaturesText(sentences[..s + 1], dataType) == FeaturesText(sentences[..s], dataType) + Block(sentences[s], dataType)
  {
    FeaturesTextAppend(sentences[..s], [sentences[s]], dataType);
    TakeSnoc(sentences, s);
  }

  /** The body of the `if line:` branch of `find_features_from_sentences`:
      one token's feature line, grown column by column. */
  method TokenFeatures(token: String, tag: String) returns (line: String)
    ensures line == FeatureLine(token, tag)
  {
    line := token + "\t";
    ghost var head := line;
    for i := 1 to PREFIX_LEN + 1
      invariant line == head + Terminated(Affixes(token, i - 1, 0), '\t')
    {
      AffixColumnStep(head, token, i, 0);
      line := line + AffixFeats(token, i, 0) + "\t";
    }
    ghost var prefixes := line;
    for i := 1 to SUFFIX_LEN + 1
      invariant line == prefixes + Terminated(Affixes(token, i - 1, 1), '\t')
    {
      AffixColumnStep(prefixes, token, i, 1);
      line := line + AffixFeats(token, i, 1) + "\t";
    }
    ghost var affixes := line;
    if |token| <= 4 {
      line := line + "LESS\t";
    } else {
      line := line + "MORE\t";
    }
    assert line == affixes + LengthClass(token) + "\t";
    line := line + NormaliseTag(tag) + "\n";
    FeatureLineBuilt(token, tag);
    assert affixes == token + "\t" + Terminated(Affixes(token, PREFIX_LEN, 0), '\t')
      + Terminated(Affixes(token, SUFFIX_LEN, 1), '\t');
  }

  /** The `if line:` branch of the inner loop: read the token and the tag
      from the tab fields and build their feature line. */
  method AnnotatedLineFeatures(line: String, dataType: String) returns (featureLine: String)
    requires line != [] && LineFieldsPresent(line, dataType)
    ensures featureLine == LineFeatures(line, dataType)
  {
    var lineSplit := SplitOn(line, '\t');
    var token, tag;
    if IsConll(dataType) {
      token, tag := lineSplit[0], lineSplit[|lineSplit| - 1];
    } else {
      token, tag := lineSplit[1], lineSplit[2];
    }
    ReadAnnotationFields(line, dataType);
    featureLine := TokenFeatures(token, tag);
  }

  /** The inner loop of `find_features_from_sentences` over one sentence. */
  method FindSentenceFeatures(sentence: String, dataType: String) returns (sentenceFeatures: String)
    requires SentenceFieldsPresent(sentence, dataType)
    ensures sentenceFeatures == SentenceFeatures(sentence, dataType)
  {
    var lines := SplitOn(sentence, '\n');
    sentenceFeatures := [];
    for j := 0 to |lines|
      invariant sentenceFeatures == LinesFeatures(lines[..j], dataType)
    {
      var line := lines[j];
      if line != [] {
        var featureLine := AnnotatedLineFeatures(line, dataType);
        sentenceFeatures := sentenceFeatures + featureLine;
      }
      LinesFeaturesStep(lines, j, dataType);
    }
    assert lines[..|lines|] == lines;
  }

  /** `find_features_from_sentences`: for each sentence, the feature lines of
      its non-empty lines, kept with one more newline when not blank. */
  method FindFeaturesFromSentences(sentences: seq<String>, dataType: String) returns (features: String)
    requires forall k :: 0 <= k < |sentences| ==> SentenceFieldsPresent(sentences[k], dataType)
    ensures features == FeaturesText(sentences, dataType)
  {
    features := [];
    for s := 0 to |sentences|
      invariant features == FeaturesText(sentences[..s], dataType)
    {
      var sentence := sentences[s];
      var sentenceFeatures := FindSentenceFeatures(sentence, dataType);
      if Strip(sentenceFeatures) != [] {
        features := features + sentenceFeatures + "\n";
      }
      FeaturesTextStep(sentences, s, dataType);
    }
    assert sentences[..|sentences|] == sentences;
  }

  /** `write_text_to_file` writes the text and one more newline. */
  function WriteTextToFile(text: String): (written: String)
    ensures |written| == |text| + 1
    ensures written[..|text|] == text && written[|text|] == '\n'
  {
    text + "\n"
  }

  // ---------------------------------------------------------------------
  // CoNLL sentence segmentation

  /** The loop's state after some lines: the finished sentences (as line
      lists) and the `temp_tokens` buffer. */
  datatype Segmentation = Segmentation(done: seq<seq<String>>, buffer: seq<String>)

  predicate Blank(line: String) {
    Strip(line) == []
  }

  /** One pass of the loop: buffer a non-blank line, else flush the buffer. */
  function Step(st: Segmentation, line: String): Segmentation
  {
    var l := Strip(line);
    if l != [] then Segmentation(st.done, st.buffer + [l])
    else if st.buffer != [] then Segmentation(st.done + [st.buffer], [])
    else Segmentation(st.done, [])
  }

  function Scan(lines: seq<String>): (st: Segmentation)
    ensures |st.done| + (if st.buffer != [] then 1 else 0) <= |lines|
  {
    if lines == [] then Segmentation([], [])
    else Step(Scan(lines[..|lines| - 1]), lines[|lines| - 1])
  }

  /** The sentences as line lists, the trailing buffer flushed. */
  function Segments(lines: seq<String>): (r: seq<seq<String>>)
    ensures |r| <= |lines|
  {
    var st := Scan(lines);
    if st.buffer != [] then st.done + [st.buffer] else st.done
  }

  /** `'\n'.join(temp_tokens)` for every sentence. */
  function JoinEach(groups: seq<seq<String>>): (r: seq<String>)
    ensures |r| == |groups|
    ensures forall k :: 0 <= k < |groups| ==> r[k] == JoinWith(groups[k], '\n')
  {
    if groups == [] then []
    else JoinEach(groups[..|groups| - 1]) + [JoinWith(groups[|groups| - 1], '\n')]
  }

  function Flatten(groups: seq<seq<String>>): seq<String>
  {
    if groups == [] then [] else Flatten(groups[..|groups| - 1]) + groups[|groups| - 1]
  }

  /** Number of maximal runs of non-blank lines. */
  function Runs(lines: seq<String>): nat
  {
    if lines == [] then 0
    else
      var n := |lines|;
      Runs(lines[..n - 1]) + (if !Blank(lines[n - 1]) && (n == 1 || Blank(lines[n - 2])) then 1 else 0)
  }

  /** The buffer is non-empty exactly while a run is open, and every
      finished sentence or open buffer accounts for one run. */
  lemma {:induction false} ScanRuns(lines: seq<String>)
    ensures Scan(lines).buffer != [] <==> lines != [] && !Blank(lines[|lines| - 1])
    ensures |Scan(lines).done| + (if Scan(lines).buffer != [] then 1 else 0) == Runs(lines)
  {
    if lines != [] {
      var init := lines[..|lines| - 1];
      ScanRuns(init);
      if |lines| > 1 {
        assert init[|init| - 1] == lines[|lines| - 2];
      }
    }
  }

  /** The number of sentences is the number of maximal runs of non-blank
      lines, a trailing run included. */
  lemma SegmentsCount(lines: seq<String>)
    ensures |Segments(lines)| == Runs(lines)
  {
    ScanRuns(lines);
  }

  lemma {:induction false} ScanFlatten(lines: seq<String>)
    ensures Flatten(Scan(lines).done) + Scan(lines).buffer == NonBlankStripped(lines)
  {
    if lines != [] {
      var init := lines[..|lines| - 1];
      var st := Scan(init);
      ScanFlatten(init);
      if Strip(lines[|lines| - 1]) == [] && st.buffer != [] {
        assert (st.done + [st.buffer])[..|st.done|] == st.done;
      }
    }
  }

  /** The sentences' lines, in order, are exactly the stripped non-blank
      input lines. */
  lemma SegmentsFlatten(lines: seq<String>)
    ensures Flatten(Segments(lines)) == NonBlankStripped(lines)
  {
    ScanFlatten(lines);
    var st := Scan(lines);
    if st.buffer != [] {
      assert (st.done + [st.buffer])[..|st.done|] == st.done;
    }
  }

  /** Every line kept in a sentence is some input line stripped; so every
      property of all stripped non-blank input lines carries over. */
  lemma {:induction false} ScanKeeps(lines: seq<String>, P: String -> bool)
    requires forall i :: 0 <= i < |lines| && !Blank(lines[i]) ==> P(Strip(lines[i]))
    ensures forall k, j :: 0 <= k < |Scan(lines).done| && 0 <= j < |Scan(lines).done[k]| ==> P(Scan(lines).done[k][j])
    ensures forall k :: 0 <= k < |Scan(lines).done| ==> Scan(lines).done[k] != []
    ensures forall j :: 0 <= j < |Scan(lines).buffer| ==> P(Scan(lines).buffer[j])
  {
    if lines != [] {
      var init := lines[..|lines| - 1];
      assert forall i :: 0 <= i < |init| ==> init[i] == lines[i];
      ScanKeeps(init, P);
    }
  }

  /** ScanKeeps for the flushed sentences. */
  lemma SegmentsKeep(lines: seq<String>, P: String -> bool)
    requires forall i :: 0 <= i < |lines| && !Blank(lines[i]) ==> P(Strip(lines[i]))
    ensures forall k :: 0 <= k < |Segments(lines)| ==> Segments(lines)[k] != []
    ensures forall k, j :: 0 <= k < |Segments(lines)| && 0 <= j < |Segments(lines)[k]| ==> P(Segments(lines)[k][j])
  {
    ScanKeeps(lines, P);
    var st := Scan(lines);
    if st.buffer != [] {
      assert forall k :: 0 <= k < |st.done| ==> (st.done + [st.buffer])[k] == st.done[k];
    }
  }

  /** Every sentence is non-empty and each of its lines is non-empty and
      stripped, so no sentence holds a blank line. */
  lemma SegmentsWellFormed(lines: seq<String>)
    ensures forall k :: 0 <= k < |Segments(lines)| ==> Segments(lines)[k] != []
    ensures forall k, j :: 0 <= k < |Segments(lines)| && 0 <= j < |Segments(lines)[k]| ==>
      Segments(lines)[k][j] != [] && IsStripped(Segments(lines)[k][j])
  {
    SegmentsKeep(lines, (l: String) => l != [] && IsStripped(l));
  }

  /** When no stripped input line holds a newline, splitting a joined
      sentence on newlines gives back its lines. */
  lemma SegmentsSplitBack(lines: seq<String>)
    requires forall i :: 0 <= i < |lines| ==> '\n' !in Strip(lines[i])
    ensures forall k :: 0 <= k < |Segments(lines)| ==>
      SplitOn(JoinEach(Segments(lines))[k], '\n') == Segments(lines)[k]
  {
    SegmentsKeep(lines, (l: String) => '\n' !in l);
    var segs := Segments(lines);
    forall k | 0 <= k < |segs| ensures SplitOn(JoinEach(segs)[k], '\n') == segs[k] {
      SplitJoin(segs[k], '\n');
    }
  }

  /** Finished sentences before the state do not affect a step. */
  lemma StepShift(d: seq<seq<String>>, st: Segmentation, line: String)
    ensures Step(Segmentation(d + st.done, st.buffer), line)
      == Segmentation(d + Step(st, line).done, Step(st, line).buffer)
  {
    if Strip(line) == [] && st.buffer != [] {
      assert d + st.done + [st.buffer] == d + (st.done + [st.buffer]);
    }
  }

  /** Once the buffer is empty the scan starts afresh: the rest is scanned
      as if it stood alone, after the sentences already finished. */
  lemma {:induction false} ScanFresh(p: seq<String>, c: seq<String>)
    requires Scan(p).buffer == []
    ensures Scan(p + c) == Segmentation(Scan(p).done + Scan(c).done, Scan(c).buffer)
    decreases |c|
  {
    if c == [] {
      assert p + c == p;
    } else {
      var c' := c[..|c| - 1];
      var x := c[|c| - 1];
      ScanFresh(p, c');
      assert (p + c)[..|p + c| - 1] == p + c';
      assert (p + c)[|p + c| - 1] == x;
      StepShift(Scan(p).done, Scan(c'), x);
    }
  }

  /** A blank line flushes the buffer. */
  lemma ScanBlank(a: seq<String>, b: String)
    requires Blank(b)
    ensures Scan(a + [b]) == Segmentation(Segments(a), [])
  {
    assert (a + [b])[..|a|] == a;
  }

  /** A blank line always ends a sentence: the sentences of the lines
      around it are those of each side, in order. */
  lemma SegmentsAtBlank(a: seq<String>, b: String, c: seq<String>)
    requires Blank(b)
    ensures Segments(a + [b] + c) == Segments(a) + Segments(c)
  {
    ScanBlank(a, b);
    ScanFresh(a + [b], c);
    var st := Scan(c);
    if st.buffer != [] {
      assert Segments(a) + st.done + [st.buffer] == Segments(a) + (st.done + [st.buffer]);
    }
  }

  /** Without a blank line the scan never flushes: the buffer holds every
      stripped line. */
  lemma {:induction false} ScanRun(r: seq<String>)
    requires forall i :: 0 <= i < |r| ==> !Blank(r[i])
    ensures Scan(r) == Segmentation([], NonBlankStripped(r))
  {
    if r != [] {
      var init := r[..|r| - 1];
      assert forall i :: 0 <= i < |init| ==> init[i] == r[i];
      ScanRun(init);
    }
  }

  /** A non-empty run of non-blank lines is one whole sentence. With
      SegmentsAtBlank this fixes every sentence boundary. */
  lemma SegmentsRun(r: seq<String>)
    requires r != []
    requires forall i :: 0 <= i < |r| ==> !Blank(r[i])
    ensures Segments(r) == [NonBlankStripped(r)]
  {
    ScanRun(r);
    assert Strip(r[|r| - 1]) != [];
  }

  /** The lines of some sentences, each sentence followed by an empty line:
      the CoNLL layout that the segmentation reads. */
  function Separated(groups: seq<seq<String>>): seq<String>
  {
    if groups == [] then [] else Separated(groups[..|groups| - 1]) + (groups[|groups| - 1] + [[]])
  }

  /** A sentence as the segmentation emits it: non-empty, each line
      non-empty and stripped. */
  predicate WellFormedSentence(g: seq<String>) {
    g != [] && forall j :: 0 <= j < |g| ==> g[j] != [] && IsStripped(g[j])
  }

  /** A well-formed sentence followed by an empty line scans to itself. */
  lemma SentenceScan(g: seq<String>)
    requires WellFormedSentence(g)
    ensures Scan(g + [[]]) == Segmentation([g], [])
  {
    forall j | 0 <= j < |g| ensures !Blank(g[j]) {
      StripStripped(g[j]);
    }
    SegmentsRun(g);
    NonBlankStrippedKeeps(g);
    ScanBlank(g, []);
  }

  /** One more sentence of the layout. */
  lemma ScanSeparatedStep(groups: seq<seq<String>>)
    requires groups != []
    requires Scan(Separated(groups[..|groups| - 1])) == Segmentation(groups[..|groups| - 1], [])
    requires WellFormedSentence(groups[|groups| - 1])
    ensures Scan(Separated(groups)) == Segmentation(groups, [])
  {
    var init := groups[..|groups| - 1];
    var g := groups[|groups| - 1];
    SentenceScan(g);
    ScanFresh(Separated(init), g + [[]]);
    SnocSlice(groups);
  }

  /** Well-formed sentences separated by empty lines scan to those
      sentences with an empty buffer. */
  lemma {:induction false} ScanSeparated(groups: seq<seq<String>>)
    requires forall k :: 0 <= k < |groups| ==> WellFormedSentence(groups[k])
    ensures Scan(Separated(groups)) == Segmentation(groups, [])
  {
    if groups != [] {
      var init := groups[..|groups| - 1];
      forall k | 0 <= k < |init| ensures WellFormedSentence(init[k]) {
        assert init[k] == groups[k];
      }
      ScanSeparated(init);
      ScanSeparatedStep(groups);
    }
  }

  /** Segmenting is idempotent: laying well-formed sentences out with empty
      lines between them and segmenting again gives back the sentences. */
  lemma SegmentsSeparated(groups: seq<seq<String>>)
    requires forall k :: 0 <= k < |groups| ==> WellFormedSentence(groups[k])
    ensures Segments(Separated(groups)) == groups
  {
    ScanSeparated(groups);
  }

  /** One more line, as the `for line in lines` loop of `find_sentences_from_conll_text` takes it. */
  lemma ScanStep(lines: seq<String>, i: nat)
    requires i < |lines|
    ensures var st := Scan(lines[..i]);
      var line := Strip(lines[i]);
      Scan(lines[..i + 1])
        == if line != [] then Segmentation(st.done, st.buffer + [line])
           else if st.buffer != [] then Segmentation(st.done + [st.buffer], [])
           else Segmentation(st.done, [])
  {
    assert lines[..i + 1][..i] == lines[..i];
  }

  lemma JoinEachSnoc(groups: seq<seq<String>>, group: seq<String>)
    ensures JoinEach(groups + [group]) == JoinEach(groups) + [JoinWith(group, '\n')]
  {
    assert (groups + [group])[..|groups|] == groups;
  }

  /** `find_sentences_from_conll_text`: strip each line, buffer the
      non-blank ones, and flush the buffer on a blank line and at the end. */
  method FindSentencesFromConllText(lines: seq<String>) returns (sentences: seq<String>)
    ensures sentences == JoinEach(Segments(lines))
    ensures |sentences| == Runs(lines)
  {
    var tempTokens: seq<String> := [];
    sentences := [];
    for i := 0 to |lines|
      invariant sentences == JoinEach(Scan(lines[..i]).done)
      invariant tempTokens == Scan(lines[..i]).buffer
    {
      ScanStep(lines, i);
      var line := Strip(lines[i]);
      if line != [] {
        tempTokens := tempTokens + [line];
      } else {
        if tempTokens != [] {
          var tempSentence := JoinWith(tempTokens, '\n');
          JoinEachSnoc(Scan(lines[..i]).done, tempTokens);
          sentences := sentences + [tempSentence];
        }
        tempTokens := [];
      }
    }
    assert lines[..|lines|] == lines;
    if tempTokens != [] {
      var tempSentence := JoinWith(tempTokens, '\n');
      JoinEachSnoc(Scan(lines).done, tempTokens);
      sentences := sentences + [tempSentence];
      tempTokens := [];
    }
    SegmentsCount(lines);
  }
}
