/** The scoring side of backend/app.py: the upload-name whitelist, the rule-based
    fallback scorer used when no trained model is loaded, the explanation generator,
    and the label word of the prediction response. Scores and entropies are exact
    reals; on every combination of rules the scorer can reach, exact reals and the
    double-precision sums of the source give the same label. */
module App {
  import opened Wrappers
  import opened Text
  import opened FeatureExtractor

  // ---------------------------------------------------------------------------
  // allowed_file

  /** The extensions the upload endpoint accepts, without their dot. */
  const AllowedExtensions: set<string> := {"exe", "zip", "txt", "bin", "dll"}

  /** `allowed_file`: the name has a dot, and the text after its last dot,
      lower-cased, is a whitelisted extension. */
  function AllowedFile(filename: string): (ok: bool)
    ensures ok <==> exists i :: 0 <= i < |filename| && LastDotAt(filename, i)
                                 && Lower(filename[i + 1..]) in AllowedExtensions
  {
    var k := LastIndexOf(filename, '.');
    if '.' in filename then
      assert LastDotAt(filename, k);
      Lower(AfterLastDot(filename)) in AllowedExtensions
    else
      assert forall i :: 0 <= i < |filename| ==> !LastDotAt(filename, i);
      false
  }

  /** Position `i` of `s` holds its last '.'. */
  predicate LastDotAt(s: string, i: int)
    requires 0 <= i < |s|
  {
    s[i] == '.' && forall j :: i < j < |s| ==> s[j] != '.'
  }

  /** Names at the edges of the whitelist: a multi-dot name with an upper-case
      extension passes; a trailing dot and a bare extension without a dot do not. */
  lemma AllowedFileExamples()
    ensures AllowedFile("a.tar.EXE")
    ensures !AllowedFile("file.")
    ensures !AllowedFile("exe")
  {
    var a := "a.tar.EXE";
    assert LastDotAt(a, 5);
    assert a[6..] == "EXE" && Lower("EXE") == "exe";
    var b := "file.";
    assert LastDotAt(b, 4) && b[5..] == [];
    assert forall i :: 0 <= i < |b| && LastDotAt(b, i) ==> i == 4;
    assert "exe"[0] != '.' && "exe"[1] != '.' && "exe"[2] != '.';
  }

  // ---------------------------------------------------------------------------
  // fallback_prediction

  /** 5 MB in the source: 5 * 1024 * 1024 bytes. */
  const FiveMiB: nat := 5 * 1024 * 1024

  /** The rows of the fallback scorer's rule table. */
  datatype Rule =
    | SmallLowEntropy     // small file with entropy under 4
    | LargeFile           // over 5 MiB
    | VeryHighEntropy     // entropy over 7.5
    | HighEntropy         // entropy in (7.0, 7.5]
    | ElevatedEntropy     // entropy in (6.0, 7.0]
    | VeryLowEntropy      // entropy under 3
    | LowEntropy          // entropy in [3, 4)
    | ManyImports         // over 100 imports
    | NoImportsLarge      // no imports, over 10000 bytes
    | NoImportsSmall      // no imports, under 10000 bytes

  /** What a rule adds to the score when it fires. */
  function Delta(r: Rule): real {
    match r
    case SmallLowEntropy => -0.4
    case LargeFile => 0.15
    case VeryHighEntropy => 0.5
    case HighEntropy => 0.3
    case ElevatedEntropy => 0.1
    case VeryLowEntropy => -0.3
    case LowEntropy => -0.15
    case ManyImports => 0.3
    case NoImportsLarge => 0.2
    case NoImportsSmall => -0.1
  }

  /** When each rule fires, stated as disjoint ranges rather than as the source's
      if/elif chains. */
  predicate Fires(r: Rule, f: FeatureVector) {
    match r
    case SmallLowEntropy => f.fileSize < 10000 && f.entropy < 4.0
    case LargeFile => f.fileSize > FiveMiB
    case VeryHighEntropy => f.entropy > 7.5
    case HighEntropy => 7.0 < f.entropy <= 7.5
    case ElevatedEntropy => 6.0 < f.entropy <= 7.0
    case VeryLowEntropy => f.entropy < 3.0
    case LowEntropy => 3.0 <= f.entropy < 4.0
    case ManyImports => f.importsCount > 100
    case NoImportsLarge => f.importsCount == 0 && f.fileSize > 10000
    case NoImportsSmall => f.importsCount == 0 && f.fileSize < 10000
  }

  /** A rule's share of the score. */
  function Contribution(r: Rule, f: FeatureVector): real {
    if Fires(r, f) then Delta(r) else 0.0
  }

  /** The reference score: every rule of the table that fires adds its delta. */
  function Score(f: FeatureVector): real {
    Contribution(SmallLowEntropy, f) + Contribution(LargeFile, f)
    + Contribution(VeryHighEntropy, f) + Contribution(HighEntropy, f) + Contribution(ElevatedEntropy, f)
    + Contribution(VeryLowEntropy, f) + Contribution(LowEntropy, f)
    + Contribution(ManyImports, f) + Contribution(NoImportsLarge, f) + Contribution(NoImportsSmall, f)
  }

  /** `min(max(x, 0.5), 0.95)`. */
  function Clamp(x: real): real {
    if x < 0.5 then 0.5 else if x > 0.95 then 0.95 else x
  }

  function Abs(x: real): real {
    if x < 0.0 then -x else x
  }

  /** `fallback_prediction`: the score accumulated rule by rule equals the table's
      score; the label is 1 exactly when it exceeds 0.2; the confidence is
      `0.5 + |score|` clamped into [0.5, 0.95], so a malicious label comes with a
      confidence above 0.7. */
  method FallbackPrediction(features: FeatureVector) returns (prediction: int, confidence: real)
    ensures prediction == 0 || prediction == 1
    ensures prediction == 1 <==> Score(features) > 0.2
    ensures confidence == Clamp(Abs(Score(features)) + 0.5)
    ensures 0.5 <= confidence <= 0.95
    ensures prediction == 1 ==> confidence > 0.7
  {
    var fileSize, entropy, importsCount := features.fileSize, features.entropy, features.importsCount;
    var score: real := 0.0;
    if fileSize < 10000 && entropy < 4.0 {
      score := score - 0.4;
    }
    if fileSize > 5 * 1024 * 1024 {
      score := score + 0.15;
    }
    if entropy > 7.5 {
      score := score + 0.5;
    } else if entropy > 7.0 {
      score := score + 0.3;
    } else if entropy > 6.0 {
      score := score + 0.1;
    }
    if entropy < 3.0 {
      score := score - 0.3;
    } else if entropy < 4.0 {
      score := score - 0.15;
    }
    if importsCount > 100 {
      score := score + 0.3;
    } else if importsCount == 0 && fileSize > 10000 {
      score := score + 0.2;
    } else if importsCount == 0 && fileSize < 10000 {
      score := score - 0.1;
    }
    assert score == Score(features);
    prediction := if score > 0.2 then 1 else 0;
    var magnitude := if score < 0.0 then -score else score;
    confidence := magnitude + 0.5;
    if confidence < 0.5 {
      confidence := 0.5;
    }
    if confidence > 0.95 {
      confidence := 0.95;
    }
  }

  /** The number of rules among `rs` that fire. */
  function FiredCount(rs: seq<Rule>, f: FeatureVector): nat {
    if rs == [] then 0 else (if Fires(rs[0], f) then 1 else 0) + FiredCount(rs[1..], f)
  }

  /** At most one tier of the high-entropy chain fires, at most one of the
      low-entropy chain and at most one import rule. */
  lemma RuleExclusivity(f: FeatureVector)
    ensures FiredCount([VeryHighEntropy, HighEntropy, ElevatedEntropy], f) <= 1
    ensures FiredCount([VeryLowEntropy, LowEntropy], f) <= 1
    ensures FiredCount([ManyImports, NoImportsLarge, NoImportsSmall], f) <= 1
  {
    FiredCountOfThree(VeryHighEntropy, HighEntropy, ElevatedEntropy, f);
    FiredCountOfThree(ManyImports, NoImportsLarge, NoImportsSmall, f);
    var low := [VeryLowEntropy, LowEntropy];
    assert low[1..] == [LowEntropy] && [LowEntropy][1..] == [];
    assert FiredCount([LowEntropy], f) == (if Fires(LowEntropy, f) then 1 else 0);
  }

  /** The fired count of a three-rule list, spelled out. */
  lemma FiredCountOfThree(a: Rule, b: Rule, c: Rule, f: FeatureVector)
    ensures FiredCount([a, b, c], f)
            == (if Fires(a, f) then 1 else 0) + (if Fires(b, f) then 1 else 0) + (if Fires(c, f) then 1 else 0)
  {
    var rs := [a, b, c];
    assert rs[1..] == [b, c] && [b, c][1..] == [c] && [c][1..] == [];
    assert FiredCount([c], f) == (if Fires(c, f) then 1 else 0);
    assert FiredCount([b, c], f) == (if Fires(b, f) then 1 else 0) + FiredCount([c], f);
  }

  /** A file of exactly 10000 bytes without imports triggers no import rule: both
      zero-import rules compare strictly. */
  lemma NoImportRuleAtTenThousand(f: FeatureVector)
    requires f.importsCount == 0 && f.fileSize == 10000
    ensures FiredCount([ManyImports, NoImportsLarge, NoImportsSmall], f) == 0
  {
    FiredCountOfThree(ManyImports, NoImportsLarge, NoImportsSmall, f);
  }

  /** Small files with entropy under 3 are penalised twice for low entropy (by the
      combined rule and by the low-entropy chain), and are always benign. */
  lemma LowEntropyCountedTwice(f: FeatureVector)
    requires f.fileSize < 10000 && f.entropy < 3.0
    ensures Fires(SmallLowEntropy, f) && Fires(VeryLowEntropy, f)
    ensures Score(f) <= -0.4
  {
  }

  /** A small file with entropy under 4 is never labelled malicious. */
  lemma SmallLowEntropyFilesAreBenign(f: FeatureVector)
    requires f.fileSize < 10000 && f.entropy < 4.0
    ensures Score(f) <= 0.2
  {
  }

  /** The four sample vectors of the training script, scored by the fallback rules:
      (score, label) are (0, benign), (0.8, malicious), (0.5, malicious) and
      (0, benign). The second has no size bonus, since 5000000 < 5 MiB. */
  lemma SampleScores()
    ensures Score(FeatureVector(50000, 4.2, 15)) == 0.0
    ensures Score(FeatureVector(5000000, 7.8, 150)) == 0.8
    ensures Score(FeatureVector(1000000, 7.9, 2)) == 0.5
    ensures Score(FeatureVector(100000, 5.1, 35)) == 0.0
    ensures Clamp(Abs(0.8) + 0.5) == 0.95 && Clamp(Abs(0.5) + 0.5) == 0.95 && Clamp(Abs(0.0) + 0.5) == 0.5
  {
  }

  // ---------------------------------------------------------------------------
  // generate_explanation

  /** 1 MiB, the small-file bound of the benign explanation. */
  const OneMiB: nat := 1024 * 1024

  /** The segments of an explanation. Numeric arguments are kept as numbers; their
      text formatting is not modelled. */
  datatype Line =
    | MaliciousHeader                   // "File classified as MALICIOUS based on:"
    | BenignHeader                      // "File classified as BENIGN based on:"
    | VeryHighEntropyLine(entropy: real)  // encryption or packing
    | HighEntropyLine(entropy: real)      // potential obfuscation
    | ManyImportsLine(count: nat)         // complex functionality
    | NoImportsLine                       // could be packed or obfuscated
    | LargeFileLine(megabytes: real)      // size in MB
    | NormalEntropyLine(entropy: real)
    | ReasonableImportsLine(count: nat)
    | SmallFileLine(bytes: nat)
    | ConfidenceLine(confidence: real)

  /** The position class of a segment: header, entropy, imports, size, confidence. */
  function Rank(l: Line): nat {
    match l
    case MaliciousHeader => 0
    case BenignHeader => 0
    case VeryHighEntropyLine(_) => 1
    case HighEntropyLine(_) => 1
    case NormalEntropyLine(_) => 1
    case ManyImportsLine(_) => 2
    case NoImportsLine => 2
    case ReasonableImportsLine(_) => 2
    case LargeFileLine(_) => 3
    case SmallFileLine(_) => 3
    case ConfidenceLine(_) => 4
  }

  /** The condition under which each segment may appear, with the value it shows. */
  predicate Justified(l: Line, f: FeatureVector, prediction: int, confidence: real) {
    match l
    case MaliciousHeader => prediction == 1
    case BenignHeader => prediction != 1
    case VeryHighEntropyLine(e) => prediction == 1 && e == f.entropy && e > 7.5
    case HighEntropyLine(e) => prediction == 1 && e == f.entropy && 7.0 < e <= 7.5
    case ManyImportsLine(n) => prediction == 1 && n == f.importsCount && n > 100
    case NoImportsLine => prediction == 1 && f.importsCount == 0
    case LargeFileLine(m) =>
      prediction == 1 && f.fileSize > FiveMiB && m == f.fileSize as real / 1024.0 / 1024.0
    case NormalEntropyLine(e) => prediction != 1 && e == f.entropy && e < 6.0
    case ReasonableImportsLine(n) => prediction != 1 && n == f.importsCount && 1 <= n <= 50
    case SmallFileLine(b) => prediction != 1 && b == f.fileSize && b < OneMiB
    case ConfidenceLine(c) => c == confidence
  }

  /** The header segment chosen by the label. */
  function Header(prediction: int): Line {
    if prediction == 1 then MaliciousHeader else BenignHeader
  }

  /** The entropy segment, if any: at most one per explanation. */
  function EntropySegment(f: FeatureVector, prediction: int): (s: seq<Line>)
    ensures |s| <= 1
  {
    if prediction == 1 then
      if f.entropy > 7.5 then [VeryHighEntropyLine(f.entropy)]
      else if f.entropy > 7.0 then [HighEntropyLine(f.entropy)]
      else []
    else if f.entropy < 6.0 then [NormalEntropyLine(f.entropy)]
    else []
  }

  /** The imports segment, if any: at most one per explanation. */
  function ImportsSegment(f: FeatureVector, prediction: int): (s: seq<Line>)
    ensures |s| <= 1
  {
    if prediction == 1 then
      if f.importsCount > 100 then [ManyImportsLine(f.importsCount)]
      else if f.importsCount == 0 then [NoImportsLine]
      else []
    else if 1 <= f.importsCount <= 50 then [ReasonableImportsLine(f.importsCount)]
    else []
  }

  /** The size segment, if any: at most one per explanation. */
  function SizeSegment(f: FeatureVector, prediction: int): (s: seq<Line>)
    ensures |s| <= 1
  {
    if prediction == 1 then
      if f.fileSize > FiveMiB then [LargeFileLine(f.fileSize as real / 1024.0 / 1024.0)] else []
    else if f.fileSize < OneMiB then [SmallFileLine(f.fileSize)]
    else []
  }

  /** The reference explanation: header, one optional segment per category, and the
      confidence segment. */
  function Explanation(f: FeatureVector, prediction: int, confidence: real): seq<Line> {
    [Header(prediction)] + EntropySegment(f, prediction) + ImportsSegment(f, prediction)
    + SizeSegment(f, prediction) + [ConfidenceLine(confidence)]
  }

  /** An explanation has two to five segments, starts with the header of its label
      and ends with the confidence segment. */
  lemma ExplanationShape(f: FeatureVector, prediction: int, confidence: real)
    ensures var x := Explanation(f, prediction, confidence);
      && 2 <= |x| <= 5
      && x[0] == Header(prediction) && x[|x| - 1] == ConfidenceLine(confidence)
  {
  }

  /** The middle of an explanation is its three optional segments. */
  lemma ExplanationMiddle(f: FeatureVector, prediction: int, confidence: real, i: int)
    requires 0 < i < |Explanation(f, prediction, confidence)| - 1
    ensures var mid := EntropySegment(f, prediction) + ImportsSegment(f, prediction) + SizeSegment(f, prediction);
      Explanation(f, prediction, confidence)[i] == mid[i - 1]
  {
    var mid := EntropySegment(f, prediction) + ImportsSegment(f, prediction) + SizeSegment(f, prediction);
    assert Explanation(f, prediction, confidence) == [Header(prediction)] + mid + [ConfidenceLine(confidence)];
  }

  /** Every segment of the explanation has its condition satisfied. */
  lemma ExplanationJustified(f: FeatureVector, prediction: int, confidence: real)
    ensures var x := Explanation(f, prediction, confidence);
      forall i :: 0 <= i < |x| ==> Justified(x[i], f, prediction, confidence)
  {
    var x := Explanation(f, prediction, confidence);
    var mid := EntropySegment(f, prediction) + ImportsSegment(f, prediction) + SizeSegment(f, prediction);
    assert forall l :: l in mid ==> Justified(l, f, prediction, confidence);
    forall i | 0 <= i < |x| ensures Justified(x[i], f, prediction, confidence) {
      if 0 < i < |x| - 1 {
        ExplanationMiddle(f, prediction, confidence, i);
        assert x[i] in mid;
      }
    }
  }

  /** The segments come in strictly increasing rank: header, entropy, imports, size,
      confidence; so no category contributes two segments. */
  lemma ExplanationOrdered(f: FeatureVector, prediction: int, confidence: real)
    ensures var x := Explanation(f, prediction, confidence);
      forall i, j :: 0 <= i < j < |x| ==> Rank(x[i]) < Rank(x[j])
  {
    var x := Explanation(f, prediction, confidence);
    var e, m, s := EntropySegment(f, prediction), ImportsSegment(f, prediction), SizeSegment(f, prediction);
    var mid := e + m + s;
    assert forall l :: l in e ==> Rank(l) == 1;
    assert forall l :: l in m ==> Rank(l) == 2;
    assert forall l :: l in s ==> Rank(l) == 3;
    assert forall k :: 0 <= k < |mid| ==> Rank(mid[k]) == if k < |e| then 1 else if k < |e| + |m| then 2 else 3;
    forall i, j | 0 <= i < j < |x| ensures Rank(x[i]) < Rank(x[j]) {
      if 0 < i {
        ExplanationMiddle(f, prediction, confidence, i);
      }
      if j < |x| - 1 {
        ExplanationMiddle(f, prediction, confidence, j);
      }
    }
  }

  /** Each rationale segment appears exactly when its condition holds. */
  lemma ExplanationComplete(f: FeatureVector, prediction: int, confidence: real)
    ensures var x := Explanation(f, prediction, confidence);
      && (VeryHighEntropyLine(f.entropy) in x <==> prediction == 1 && f.entropy > 7.5)
      && (HighEntropyLine(f.entropy) in x <==> prediction == 1 && 7.0 < f.entropy <= 7.5)
      && (ManyImportsLine(f.importsCount) in x <==> prediction == 1 && f.importsCount > 100)
      && (NoImportsLine in x <==> prediction == 1 && f.importsCount == 0)
      && (LargeFileLine(f.fileSize as real / 1024.0 / 1024.0) in x <==> prediction == 1 && f.fileSize > FiveMiB)
      && (NormalEntropyLine(f.entropy) in x <==> prediction != 1 && f.entropy < 6.0)
      && (ReasonableImportsLine(f.importsCount) in x <==> prediction != 1 && 1 <= f.importsCount <= 50)
      && (SmallFileLine(f.fileSize) in x <==> prediction != 1 && f.fileSize < OneMiB)
  {
    EntropyLinesComplete(f, prediction, confidence);
    ImportLinesComplete(f, prediction, confidence);
    SizeLinesComplete(f, prediction, confidence);
  }

  /** The entropy lines appear exactly when their conditions hold. */
  lemma EntropyLinesComplete(f: FeatureVector, prediction: int, confidence: real)
    ensures var x := Explanation(f, prediction, confidence);
      && (VeryHighEntropyLine(f.entropy) in x <==> prediction == 1 && f.entropy > 7.5)
      && (HighEntropyLine(f.entropy) in x <==> prediction == 1 && 7.0 < f.entropy <= 7.5)
      && (NormalEntropyLine(f.entropy) in x <==> prediction != 1 && f.entropy < 6.0)
  {
    ExplanationMembers(f, prediction, confidence);
    assert forall l :: l in ImportsSegment(f, prediction) ==> Rank(l) == 2;
    assert forall l :: l in SizeSegment(f, prediction) ==> Rank(l) == 3;
  }

  /** The import lines appear exactly when their conditions hold. */
  lemma ImportLinesComplete(f: FeatureVector, prediction: int, confidence: real)
    ensures var x := Explanation(f, prediction, confidence);
      && (ManyImportsLine(f.importsCount) in x <==> prediction == 1 && f.importsCount > 100)
      && (NoImportsLine in x <==> prediction == 1 && f.importsCount == 0)
      && (ReasonableImportsLine(f.importsCount) in x <==> prediction != 1 && 1 <= f.importsCount <= 50)
  {
    ExplanationMembers(f, prediction, confidence);
    assert forall l :: l in EntropySegment(f, prediction) ==> Rank(l) == 1;
    assert forall l :: l in SizeSegment(f, prediction) ==> Rank(l) == 3;
  }

  /** The size lines appear exactly when their conditions hold. */
  lemma SizeLinesComplete(f: FeatureVector, prediction: int, confidence: real)
    ensures var x := Explanation(f, prediction, confidence);
      && (LargeFileLine(f.fileSize as real / 1024.0 / 1024.0) in x <==> prediction == 1 && f.fileSize > FiveMiB)
      && (SmallFileLine(f.fileSize) in x <==> prediction != 1 && f.fileSize < OneMiB)
  {
    ExplanationMembers(f, prediction, confidence);
    assert forall l :: l in EntropySegment(f, prediction) ==> Rank(l) == 1;
    assert forall l :: l in ImportsSegment(f, prediction) ==> Rank(l) == 2;
  }

  /** The segments of an explanation are its header, the members of its three
      optional segments and its confidence segment. */
  lemma ExplanationMembers(f: FeatureVector, prediction: int, confidence: real)
    ensures forall l :: l in Explanation(f, prediction, confidence) <==>
      || l == Header(prediction)
      || l in EntropySegment(f, prediction) || l in ImportsSegment(f, prediction) || l in SizeSegment(f, prediction)
      || l == ConfidenceLine(confidence)
  {
    var e, m, s := EntropySegment(f, prediction), ImportsSegment(f, prediction), SizeSegment(f, prediction);
    assert Explanation(f, prediction, confidence) == [Header(prediction)] + e + m + s + [ConfidenceLine(confidence)];
  }

  /** The properties of an explanation, stated for a given segment list. */
  lemma ExplanationFacts(x: seq<Line>, f: FeatureVector, prediction: int, confidence: real)
    requires x == Explanation(f, prediction, confidence)
    ensures 2 <= |x| <= 5
    ensures x[0] == (if prediction == 1 then MaliciousHeader else BenignHeader)
    ensures x[|x| - 1] == ConfidenceLine(confidence)
    ensures forall i :: 0 <= i < |x| ==> Justified(x[i], f, prediction, confidence)
    ensures forall i, j :: 0 <= i < j < |x| ==> Rank(x[i]) < Rank(x[j])
    ensures VeryHighEntropyLine(f.entropy) in x <==> prediction == 1 && f.entropy > 7.5
    ensures HighEntropyLine(f.entropy) in x <==> prediction == 1 && 7.0 < f.entropy <= 7.5
    ensures ManyImportsLine(f.importsCount) in x <==> prediction == 1 && f.importsCount > 100
    ensures NoImportsLine in x <==> prediction == 1 && f.importsCount == 0
    ensures LargeFileLine(f.fileSize as real / 1024.0 / 1024.0) in x <==> prediction == 1 && f.fileSize > FiveMiB
    ensures NormalEntropyLine(f.entropy) in x <==> prediction != 1 && f.entropy < 6.0
    ensures ReasonableImportsLine(f.importsCount) in x <==> prediction != 1 && 1 <= f.importsCount <= 50
    ensures SmallFileLine(f.fileSize) in x <==> prediction != 1 && f.fileSize < OneMiB
  {
    ExplanationShape(f, prediction, confidence);
    ExplanationJustified(f, prediction, confidence);
    ExplanationOrdered(f, prediction, confidence);
    ExplanationComplete(f, prediction, confidence);
  }

  /** `generate_explanation`, up to the final join: a header chosen by the label, the
      rationale segments whose conditions hold (each exactly when it holds), and the
      confidence segment last, in the fixed order header, entropy, imports, size,
      confidence. */
  method GenerateExplanation(features: FeatureVector, prediction: int, confidence: real)
    returns (explanations: seq<Line>)
    ensures explanations == Explanation(features, prediction, confidence)
    ensures 2 <= |explanations| <= 5
    ensures explanations[0] == if prediction == 1 then MaliciousHeader else BenignHeader
    ensures explanations[|explanations| - 1] == ConfidenceLine(confidence)
    ensures forall i :: 0 <= i < |explanations| ==> Justified(explanations[i], features, prediction, confidence)
    ensures forall i, j :: 0 <= i < j < |explanations| ==> Rank(explanations[i]) < Rank(explanations[j])
    ensures VeryHighEntropyLine(features.entropy) in explanations <==> prediction == 1 && features.entropy > 7.5
    ensures HighEntropyLine(features.entropy) in explanations
            <==> prediction == 1 && 7.0 < features.entropy <= 7.5
    ensures ManyImportsLine(features.importsCount) in explanations
            <==> prediction == 1 && features.importsCount > 100
    ensures NoImportsLine in explanations <==> prediction == 1 && features.importsCount == 0
    ensures LargeFileLine(features.fileSize as real / 1024.0 / 1024.0) in explanations
            <==> prediction == 1 && features.fileSize > FiveMiB
    ensures NormalEntropyLine(features.entropy) in explanations <==> prediction != 1 && features.entropy < 6.0
    ensures ReasonableImportsLine(features.importsCount) in explanations
            <==> prediction != 1 && 1 <= features.importsCount <= 50
    ensures SmallFileLine(features.fileSize) in explanations <==> prediction != 1 && features.fileSize < OneMiB
  {
    var fileSize, entropy, importsCount := features.fileSize, features.entropy, features.importsCount;
    ghost var e, m, s := EntropySegment(features, prediction), ImportsSegment(features, prediction),
                         SizeSegment(features, prediction);
    explanations := [];
    if prediction == 1 {
      explanations := explanations + [MaliciousHeader];
      if entropy > 7.5 {
        explanations := explanations + [VeryHighEntropyLine(entropy)];
      } else if entropy > 7.0 {
        explanations := explanations + [HighEntropyLine(entropy)];
      }
      assert explanations == [Header(prediction)] + e;
      if importsCount > 100 {
        explanations := explanations + [ManyImportsLine(importsCount)];
      } else if importsCount == 0 {
        explanations := explanations + [NoImportsLine];
      }
      assert explanations == [Header(prediction)] + e + m;
      if fileSize > 5 * 1024 * 1024 {
        explanations := explanations + [LargeFileLine(fileSize as real / 1024.0 / 1024.0)];
      }
    } else {
      explanations := explanations + [BenignHeader];
      if entropy < 6.0 {
        explanations := explanations + [NormalEntropyLine(entropy)];
      }
      assert explanations == [Header(prediction)] + e;
      if 1 <= importsCount <= 50 {
        explanations := explanations + [ReasonableImportsLine(importsCount)];
      }
      assert explanations == [Header(prediction)] + e + m;
      if fileSize < 1024 * 1024 {
        explanations := explanations + [SmallFileLine(fileSize)];
      }
    }
    assert explanations == [Header(prediction)] + e + m + s;
    explanations := explanations + [ConfidenceLine(confidence)];
    ExplanationFacts(explanations, features, prediction, confidence);
  }

  // ---------------------------------------------------------------------------
  // predict_malware: the label of the response

  /** The `prediction` field of the response: "malicious" exactly for label 1,
      "benign" for every other label. */
  function PredictionLabel(prediction: int): (word: string)
    ensures word == "malicious" <==> prediction == 1
    ensures word == "benign" <==> prediction != 1
  {
    if prediction == 1 then "malicious" else "benign"
  }

  /** What a trained classifier gives for one feature vector: its label and its
      probabilities for the two classes. */
  datatype ClassifierOutput = ClassifierOutput(prediction: int, pBenign: real, pMalicious: real)

  /** The JSON fields of a successful prediction that the core computes. */
  datatype Analysis = Analysis(prediction: string, confidence: real, explanation: seq<Line>,
                               features: FeatureVector)

  /** The body of `predict_malware` once the upload is saved: extract the features,
      score them with the trained classifier when one is loaded and with the
      fallback rules otherwise, explain the verdict and name its label. */
  method PredictMalware(path: string, file: FileView, peAvailable: bool,
                        shannon: (seq<nat>, nat) -> real,
                        model: Option<FeatureVector -> ClassifierOutput>)
    returns (result: Analysis)
    ensures result.features == FeaturesOf(path, file, peAvailable, shannon)
    ensures result.prediction == "malicious" || result.prediction == "benign"
    ensures model.None? ==> (result.prediction == "malicious" <==> Score(result.features) > 0.2)
    ensures model.None? ==> 0.5 <= result.confidence <= 0.95
    ensures model.None? ==> result.confidence == Clamp(Abs(Score(result.features)) + 0.5)
    ensures model.Some? ==> (result.prediction == "malicious" <==> model.value(result.features).prediction == 1)
    ensures model.Some? ==> result.confidence
                            == Max(model.value(result.features).pBenign, model.value(result.features).pMalicious)
    ensures 2 <= |result.explanation| <= 5
    ensures result.explanation[0] == (if result.prediction == "malicious" then MaliciousHeader else BenignHeader)
    ensures result.explanation[|result.explanation| - 1] == ConfidenceLine(result.confidence)
    ensures result.explanation
            == Explanation(result.features, if result.prediction == "malicious" then 1 else 0, result.confidence)
  {
    var features := ExtractFeatures(path, file, peAvailable, shannon);
    var prediction: int, confidence: real;
    if model.None? {
      prediction, confidence := FallbackPrediction(features);
    } else {
      var output := model.value(features);
      prediction := output.prediction;
      confidence := Max(output.pBenign, output.pMalicious);
    }
    var explanation := GenerateExplanation(features, prediction, confidence);
    result := Analysis(PredictionLabel(prediction), confidence, explanation, features);
  }

  /** Python's `max` of two numbers. */
  function Max(a: real, b: real): real {
    if a >= b then a else b
  }
}
