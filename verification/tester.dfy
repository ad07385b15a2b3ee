/**
 The offline evaluation of the classifier (`Tester`, tests/tester.py): a labelled image
 list, a classification pass over it, and counting metrics computed from the
 (real label, detected label) pairs. A record whose image showed no hand keeps the
 detected label -1.

 Directory listing, image decoding and the hand-landmark estimator are not modelled: the
 listing is a parameter of `LoadImages`, and the estimator is the oracle `detect`, which
 gives the hands found in the i-th image of the pass (the estimator runs in tracking mode,
 so its answer may depend on the images before).

 Every ratio the source computes with `/` is a `Quotient`: the exact value, or the
 `ZeroDivisionError` Python raises when the denominator is zero.
 */
module Tester {
  import opened Landmarks
  import opened Reals
  import GestureRecognizer

  /** The `detected_label` of a record in which no hand was found. */
  const NoHand: int := -1

  /** One dataset entry (a Python dict with these three keys). */
  datatype Record = Record(imagePath: string, realLabel: int, detectedLabel: int)

  // ---------------------------------------------------------------------------
  // load_images
  // ---------------------------------------------------------------------------

  predicate EndsWith(s: string, suffix: string)
  {
    |suffix| <= |s| && s[|s| - |suffix|..] == suffix
  }

  /** `filename.endswith(('.png', '.jpg', '.jpeg'))`: case-sensitive. */
  predicate IsImageFile(name: string)
  {
    EndsWith(name, ".png") || EndsWith(name, ".jpg") || EndsWith(name, ".jpeg")
  }

  /** Which names pass the extension filter and which do not. */
  lemma ImageFileExamples()
    ensures IsImageFile("open_hand_01.png") && IsImageFile("a.jpg") && IsImageFile("a.jpeg")
    ensures IsImageFile(".png")
    ensures !IsImageFile("a.PNG") && !IsImageFile("a.JPG") && !IsImageFile("a.gif") && !IsImageFile("png")
  {
    assert ".png"[0..] == ".png";
    assert "a.PNG"[1..] != ".png";
    assert "a.JPG"[1..] != ".jpg";
  }

  /** `os.path.join(folder, name)` with POSIX separators. */
  function JoinPath(folder: string, name: string): string
  {
    if |name| > 0 && name[0] == '/' then name
    else if |folder| == 0 || folder[|folder| - 1] == '/' then folder + name
    else folder + "/" + name
  }

  /** The joined path ends with the file name, and a relative name is placed under the folder. */
  lemma JoinPathEndsWithName(folder: string, name: string)
    ensures EndsWith(JoinPath(folder, name), name)
    ensures (|name| == 0 || name[0] != '/') ==> JoinPath(folder, name)[..|folder|] == folder
  {
    var path := JoinPath(folder, name);
    assert path[|path| - |name|..] == name;
  }

  /** The names of a listing that pass the extension filter, in listing order. */
  function ImageFiles(listing: seq<string>): (names: seq<string>)
    ensures |names| <= |listing|
  {
    if |listing| == 0 then []
    else
      var last := listing[|listing| - 1];
      ImageFiles(listing[..|listing| - 1]) + (if IsImageFile(last) then [last] else [])
  }

  /** A name is kept exactly when it is in the listing and passes the extension filter. */
  lemma {:induction false} ImageFilesMembership(listing: seq<string>, n: string)
    ensures n in ImageFiles(listing) <==> n in listing && IsImageFile(n)
    decreases |listing|
  {
    if |listing| > 0 {
      var init := listing[..|listing| - 1];
      ImageFilesMembership(init, n);
      assert listing == init + [listing[|listing| - 1]];
    }
  }

  /** Scanning one more name of the listing appends it to the kept names exactly when it is an image. */
  lemma ImageFilesExtend(listing: seq<string>, k: nat)
    requires k < |listing|
    ensures ImageFiles(listing[..k + 1]) == ImageFiles(listing[..k]) + (if IsImageFile(listing[k]) then [listing[k]] else [])
  {
    assert listing[..k + 1][..k] == listing[..k];
  }

  /** The records `load_images` appends for the kept names: joined path, label `gesture`, not yet detected. */
  function NewRecords(folder: string, names: seq<string>, gesture: int): (rs: seq<Record>)
    ensures |rs| == |names|
    ensures forall i :: 0 <= i < |names| ==> rs[i] == Record(JoinPath(folder, names[i]), gesture, NoHand)
  {
    if |names| == 0 then []
    else NewRecords(folder, names[..|names| - 1], gesture) + [Record(JoinPath(folder, names[|names| - 1]), gesture, NoHand)]
  }

  /** Scanning one more name of the listing appends its record exactly when it is an image. */
  lemma NewRecordsExtend(folder: string, listing: seq<string>, k: nat, gesture: int)
    requires k < |listing|
    ensures NewRecords(folder, ImageFiles(listing[..k + 1]), gesture)
            == NewRecords(folder, ImageFiles(listing[..k]), gesture)
               + (if IsImageFile(listing[k]) then [Record(JoinPath(folder, listing[k]), gesture, NoHand)] else [])
  {
    var names := ImageFiles(listing[..k]);
    ImageFilesExtend(listing, k);
    if IsImageFile(listing[k]) {
      assert (names + [listing[k]])[..|names|] == names;
    }
  }

  /** Appending to a list keeps its prefix and places the new items after it. */
  lemma AppendKeepsPrefix<T>(prefix: seq<T>, items: seq<T>)
    ensures (prefix + items)[..|prefix|] == prefix
    ensures forall i :: 0 <= i < |items| ==> (prefix + items)[|prefix| + i] == items[i]
  {
  }

  /** `load_images`: one new record per image file of the listing, in listing order, labelled
      `gesture` and marked as not yet detected; the records already loaded stay as they are. */
  method LoadImages(dataset: seq<Record>, folder: string, listing: seq<string>, gesture: int)
    returns (r: seq<Record>)
    ensures r == dataset + NewRecords(folder, ImageFiles(listing), gesture)
    ensures |r| == |dataset| + |ImageFiles(listing)|
    ensures r[..|dataset|] == dataset
    ensures forall i :: 0 <= i < |ImageFiles(listing)| ==>
              r[|dataset| + i] == Record(JoinPath(folder, ImageFiles(listing)[i]), gesture, NoHand)
  {
    var added: seq<Record> := [];
    for k := 0 to |listing|
      invariant added == NewRecords(folder, ImageFiles(listing[..k]), gesture)
    {
      NewRecordsExtend(folder, listing, k, gesture);
      if IsImageFile(listing[k]) {
        added := added + [Record(JoinPath(folder, listing[k]), gesture, NoHand)];
      }
    }
    assert listing[..|listing|] == listing;
    r := dataset + added;
    AppendKeepsPrefix(dataset, NewRecords(folder, ImageFiles(listing), gesture));
  }

  // ---------------------------------------------------------------------------
  // classify_images
  // ---------------------------------------------------------------------------

  /** The label `recognize` gives the hands found in an image. */
  function Classify(hands: seq<Hand>): (gesture: int)
    requires |hands| > 0
    ensures gesture != NoHand
    ensures gesture in {GestureRecognizer.MouseButtonsUp, GestureRecognizer.MouseRightDown, GestureRecognizer.MouseLeftDown}
  {
    GestureRecognizer.Code(GestureRecognizer.Recognize(hands).value)
  }

  /** `classify_images`: every record keeps its path and real label; a record whose image shows
      a hand gets the recognised label, the others are left untouched. On a freshly loaded
      record, the result counts as detected exactly when a hand was found. */
  method ClassifyImages(dataset: seq<Record>, detect: (nat, string) -> seq<Hand>) returns (r: seq<Record>)
    ensures |r| == |dataset|
    ensures forall i :: 0 <= i < |r| ==>
              r[i].imagePath == dataset[i].imagePath && r[i].realLabel == dataset[i].realLabel
    ensures forall i :: 0 <= i < |r| && |detect(i, dataset[i].imagePath)| == 0 ==> r[i] == dataset[i]
    ensures forall i :: 0 <= i < |r| && |detect(i, dataset[i].imagePath)| > 0 ==>
              r[i].detectedLabel == Classify(detect(i, dataset[i].imagePath))
    ensures forall i :: 0 <= i < |r| && dataset[i].detectedLabel == NoHand ==>
              (r[i].detectedLabel != NoHand <==> |detect(i, dataset[i].imagePath)| > 0)
  {
    r := [];
    for i := 0 to |dataset|
      invariant |r| == i
      invariant forall j :: 0 <= j < i ==>
                  r[j].imagePath == dataset[j].imagePath && r[j].realLabel == dataset[j].realLabel
      invariant forall j :: 0 <= j < i && |detect(j, dataset[j].imagePath)| == 0 ==> r[j] == dataset[j]
      invariant forall j :: 0 <= j < i && |detect(j, dataset[j].imagePath)| > 0 ==>
                  r[j].detectedLabel == Classify(detect(j, dataset[j].imagePath))
    {
      var data := dataset[i];
      var hands := detect(i, data.imagePath);
      if |hands| > 0 {
        data := data.(detectedLabel := Classify(hands));
      }
      r := r + [data];
    }
  }

  // ---------------------------------------------------------------------------
  // Counting
  // ---------------------------------------------------------------------------

  /** A condition on one record, as the metric loops test it. */
  datatype Criterion =
    | Detected                       // a hand was found
    | RealIs(gesture: int)           // the record shows `gesture`
    | RecognisedAs(gesture: int)     // shows `gesture` and was recognised as `gesture`
    | CorrectlyRecognised            // a hand was found and recognised as what it shows
    | TruePositive(gesture: int)     // found, shows `gesture`, recognised as `gesture`
    | FalsePositive(gesture: int)    // found, shows another gesture, recognised as `gesture`
    | FalseNegative(gesture: int)    // found, shows `gesture`, recognised as another
    | PredictedAs(gesture: int)      // found and recognised as `gesture`
    | DetectedOf(gesture: int)       // found and shows `gesture`

  predicate Holds(c: Criterion, d: Record)
  {
    var found := d.detectedLabel != NoHand;
    match c
    case Detected => found
    case RealIs(g) => d.realLabel == g
    case RecognisedAs(g) => d.realLabel == g && d.detectedLabel == g
    case CorrectlyRecognised => found && d.realLabel == d.detectedLabel
    case TruePositive(g) => found && d.realLabel == g && d.detectedLabel == g
    case FalsePositive(g) => found && d.realLabel != g && d.detectedLabel == g
    case FalseNegative(g) => found && d.realLabel == g && d.detectedLabel != g
    case PredictedAs(g) => found && d.detectedLabel == g
    case DetectedOf(g) => found && d.realLabel == g
  }

  /** No record satisfies the criterion. */
  predicate NoneMatch(ds: seq<Record>, c: Criterion)
  {
    forall i :: 0 <= i < |ds| ==> !Holds(c, ds[i])
  }

  /** Every record satisfies the criterion. */
  predicate AllMatch(ds: seq<Record>, c: Criterion)
  {
    forall i :: 0 <= i < |ds| ==> Holds(c, ds[i])
  }

  /** The number of records satisfying a criterion. */
  function Count(ds: seq<Record>, c: Criterion): (n: nat)
    ensures n <= |ds|
  {
    if |ds| == 0 then 0
    else Count(ds[..|ds| - 1], c) + (if Holds(c, ds[|ds| - 1]) then 1 else 0)
  }

  /** Counting the prefix one record longer adds that record's vote. */
  lemma CountExtend(ds: seq<Record>, i: nat, c: Criterion)
    requires i < |ds|
    ensures Count(ds[..i + 1], c) == Count(ds[..i], c) + (if Holds(c, ds[i]) then 1 else 0)
  {
    assert ds[..i + 1][..i] == ds[..i];
  }

  /** A count is zero exactly when no record satisfies the criterion. */
  lemma {:induction false} CountZero(ds: seq<Record>, c: Criterion)
    ensures Count(ds, c) == 0 <==> NoneMatch(ds, c)
  {
    if |ds| > 0 {
      var init := ds[..|ds| - 1];
      CountZero(init, c);
      assert forall i :: 0 <= i < |init| ==> init[i] == ds[i];
    }
  }

  /** A count is the dataset size exactly when every record satisfies the criterion. */
  lemma {:induction false} CountFull(ds: seq<Record>, c: Criterion)
    ensures Count(ds, c) == |ds| <==> AllMatch(ds, c)
  {
    if |ds| > 0 {
      var init := ds[..|ds| - 1];
      CountFull(init, c);
      assert forall i :: 0 <= i < |init| ==> init[i] == ds[i];
    }
  }

  /** A weaker criterion counts at least as many records. */
  lemma {:induction false} CountMonotone(ds: seq<Record>, a: Criterion, b: Criterion)
    requires forall d :: Holds(a, d) ==> Holds(b, d)
    ensures Count(ds, a) <= Count(ds, b)
  {
    if |ds| > 0 {
      CountMonotone(ds[..|ds| - 1], a, b);
    }
  }

  /** Counts of two exclusive criteria add up to the count of their union. */
  lemma {:induction false} CountDisjointUnion(ds: seq<Record>, a: Criterion, b: Criterion, c: Criterion)
    requires forall d :: Holds(c, d) <==> Holds(a, d) || Holds(b, d)
    requires forall d :: !(Holds(a, d) && Holds(b, d))
    ensures Count(ds, a) + Count(ds, b) == Count(ds, c)
  {
    if |ds| > 0 {
      CountDisjointUnion(ds[..|ds| - 1], a, b, c);
    }
  }

  // ---------------------------------------------------------------------------
  // Ratios
  // ---------------------------------------------------------------------------

  /** A ratio as Python's `/` yields it: the exact value, or the exception for a zero denominator. */
  datatype Quotient = Value(value: real) | ZeroDivisionError

  function Divide(num: nat, den: nat): (q: Quotient)
    ensures q.ZeroDivisionError? <==> den == 0
    ensures q.Value? ==> q.value * den as real == num as real
    ensures q.Value? && num <= den ==> 0.0 <= q.value <= 1.0
    ensures q.Value? ==> (q.value == 0.0 <==> num == 0)
    ensures q.Value? ==> (q.value == 1.0 <==> num == den)
  {
    if den == 0 then ZeroDivisionError else Value(num as real / den as real)
  }

  predicate InUnitInterval(q: Quotient)
  {
    q.Value? ==> 0.0 <= q.value <= 1.0
  }

  // ---------------------------------------------------------------------------
  // Metrics
  // ---------------------------------------------------------------------------

  /** `get_detection_accuracy`: the share of records in which a hand was found. */
  method GetDetectionAccuracy(dataset: seq<Record>) returns (q: Quotient)
    ensures q == Divide(Count(dataset, Detected), |dataset|)
    ensures q.ZeroDivisionError? <==> |dataset| == 0
    ensures InUnitInterval(q)
    ensures q.Value? ==> (q.value == 1.0 <==> AllMatch(dataset, Detected))
    ensures q.Value? ==> (q.value == 0.0 <==> NoneMatch(dataset, Detected))
  {
    var detected := 0;
    for i := 0 to |dataset|
      invariant detected == Count(dataset[..i], Detected)
    {
      CountExtend(dataset, i, Detected);
      if dataset[i].detectedLabel != NoHand {
        detected := detected + 1;
      }
    }
    assert dataset[..|dataset|] == dataset;
    CountZero(dataset, Detected);
    CountFull(dataset, Detected);
    q := Divide(detected, |dataset|);
  }

  /** `get_detection_accuracy_by_gesture`: among the records really showing `gesture`, the share
      recognised as `gesture`; undefined when no record shows `gesture`. */
  method GetDetectionAccuracyByGesture(dataset: seq<Record>, gesture: int) returns (q: Quotient)
    ensures q == Divide(Count(dataset, RecognisedAs(gesture)), Count(dataset, RealIs(gesture)))
    ensures q.ZeroDivisionError? <==> Count(dataset, RealIs(gesture)) == 0
    ensures InUnitInterval(q)
  {
    var detected := 0;
    var total := 0;
    for i := 0 to |dataset|
      invariant total == Count(dataset[..i], RealIs(gesture))
      invariant detected == Count(dataset[..i], RecognisedAs(gesture))
    {
      CountExtend(dataset, i, RealIs(gesture));
      CountExtend(dataset, i, RecognisedAs(gesture));
      if dataset[i].realLabel == gesture {
        total := total + 1;
        if dataset[i].detectedLabel == gesture {
          detected := detected + 1;
        }
      }
    }
    assert dataset[..|dataset|] == dataset;
    CountMonotone(dataset, RecognisedAs(gesture), RealIs(gesture));
    q := Divide(detected, total);
  }

  /** `get_gesture_accuracy`: among the records with a hand found, the share recognised
      correctly; undefined when no hand was found at all. */
  method GetGestureAccuracy(dataset: seq<Record>) returns (q: Quotient)
    ensures q == Divide(Count(dataset, CorrectlyRecognised), Count(dataset, Detected))
    ensures q.ZeroDivisionError? <==> NoneMatch(dataset, Detected)
    ensures InUnitInterval(q)
  {
    var rightGestures := 0;
    var detectedHands := 0;
    for i := 0 to |dataset|
      invariant detectedHands == Count(dataset[..i], Detected)
      invariant rightGestures == Count(dataset[..i], CorrectlyRecognised)
    {
      CountExtend(dataset, i, Detected);
      CountExtend(dataset, i, CorrectlyRecognised);
      if dataset[i].detectedLabel != NoHand {
        detectedHands := detectedHands + 1;
        if dataset[i].realLabel == dataset[i].detectedLabel {
          rightGestures := rightGestures + 1;
        }
      }
    }
    assert dataset[..|dataset|] == dataset;
    CountZero(dataset, Detected);
    CountMonotone(dataset, CorrectlyRecognised, Detected);
    q := Divide(rightGestures, detectedHands);
  }

  /** True and false positives together are exactly the detected records recognised as `gesture`. */
  lemma PrecisionDenominator(dataset: seq<Record>, gesture: int)
    ensures Count(dataset, TruePositive(gesture)) + Count(dataset, FalsePositive(gesture))
            == Count(dataset, PredictedAs(gesture))
  {
    CountDisjointUnion(dataset, TruePositive(gesture), FalsePositive(gesture), PredictedAs(gesture));
  }

  /** True positives and false negatives together are exactly the detected records really
      showing `gesture`: records with no hand found never count against recall. */
  lemma RecallDenominator(dataset: seq<Record>, gesture: int)
    ensures Count(dataset, TruePositive(gesture)) + Count(dataset, FalseNegative(gesture))
            == Count(dataset, DetectedOf(gesture))
  {
    CountDisjointUnion(dataset, TruePositive(gesture), FalseNegative(gesture), DetectedOf(gesture));
  }

  /** `get_detected_precision`: among the detected records recognised as `gesture`, the share
      that really show `gesture`; undefined when nothing was recognised as `gesture`. */
  method GetDetectedPrecision(dataset: seq<Record>, gesture: int) returns (q: Quotient)
    ensures q == Divide(Count(dataset, TruePositive(gesture)), Count(dataset, PredictedAs(gesture)))
    ensures q.ZeroDivisionError? <==> Count(dataset, PredictedAs(gesture)) == 0
    ensures InUnitInterval(q)
  {
    var truePositives := 0;
    var falsePositives := 0;
    for i := 0 to |dataset|
      invariant truePositives == Count(dataset[..i], TruePositive(gesture))
      invariant falsePositives == Count(dataset[..i], FalsePositive(gesture))
    {
      CountExtend(dataset, i, TruePositive(gesture));
      CountExtend(dataset, i, FalsePositive(gesture));
      var data := dataset[i];
      if data.detectedLabel != NoHand {
        if data.realLabel == gesture && data.detectedLabel == gesture {
          truePositives := truePositives + 1;
        } else if data.realLabel != gesture && data.detectedLabel == gesture {
          falsePositives := falsePositives + 1;
        }
      }
    }
    assert dataset[..|dataset|] == dataset;
    PrecisionDenominator(dataset, gesture);
    q := Divide(truePositives, truePositives + falsePositives);
  }

  /** `get_detected_recall`: among the detected records really showing `gesture`, the share
      recognised as `gesture`; undefined when no such record was detected. */
  method GetDetectedRecall(dataset: seq<Record>, gesture: int) returns (q: Quotient)
    ensures q == Divide(Count(dataset, TruePositive(gesture)), Count(dataset, DetectedOf(gesture)))
    ensures q.ZeroDivisionError? <==> Count(dataset, DetectedOf(gesture)) == 0
    ensures InUnitInterval(q)
  {
    var truePositives := 0;
    var falseNegatives := 0;
    for i := 0 to |dataset|
      invariant truePositives == Count(dataset[..i], TruePositive(gesture))
      invariant falseNegatives == Count(dataset[..i], FalseNegative(gesture))
    {
      CountExtend(dataset, i, TruePositive(gesture));
      CountExtend(dataset, i, FalseNegative(gesture));
      var data := dataset[i];
      if data.detectedLabel != NoHand {
        if data.realLabel == gesture && data.detectedLabel == gesture {
          truePositives := truePositives + 1;
        } else if data.realLabel == gesture && data.detectedLabel != gesture {
          falseNegatives := falseNegatives + 1;
        }
      }
    }
    assert dataset[..|dataset|] == dataset;
    RecallDenominator(dataset, gesture);
    q := Divide(truePositives, truePositives + falseNegatives);
  }

  // ---------------------------------------------------------------------------
  // F1
  // ---------------------------------------------------------------------------

  lemma NonNegativeProduct(a: real, b: real)
    requires 0.0 <= a && 0.0 <= b
    ensures 0.0 <= a * b
  {
  }

  lemma NonNegativeQuotient(a: real, s: real)
    requires 0.0 <= a && 0.0 < s
    ensures 0.0 <= a / s
  {
  }

  /** The harmonic mean of two non-negative reals is at least the smaller one. */
  lemma HarmonicMeanAbove(p: real, r: real)
    requires 0.0 <= p <= r && 0.0 < p + r
    ensures p <= 2.0 * ((p * r) / (p + r))
  {
    var s := p + r;
    NonNegativeProduct(p, r - p);
    NonNegativeQuotient(p * (r - p), s);
    assert 2.0 * ((p * r) / s) - p == (p * (r - p)) / s;
  }

  /** The harmonic mean of two non-negative reals is at most the larger one. */
  lemma HarmonicMeanBelow(p: real, r: real)
    requires 0.0 <= p <= r && 0.0 < p + r
    ensures 2.0 * ((p * r) / (p + r)) <= r
  {
    var s := p + r;
    NonNegativeProduct(r, r - p);
    NonNegativeQuotient(r * (r - p), s);
    assert r - 2.0 * ((p * r) / s) == (r * (r - p)) / s;
  }

  /** F1 of two non-negative scores lies between them. */
  lemma F1Between(p: real, r: real)
    requires 0.0 <= p && 0.0 <= r && p + r != 0.0
    ensures Min(p, r) <= 2.0 * ((p * r) / (p + r)) <= Max(p, r)
  {
    if p <= r {
      HarmonicMeanAbove(p, r);
      HarmonicMeanBelow(p, r);
    } else {
      HarmonicMeanAbove(r, p);
      HarmonicMeanBelow(r, p);
      assert r * p == p * r;
      assert r + p == p + r;
    }
  }

  /** `2 * ((precision * recall) / (precision + recall))`, failing as soon as an operand failed
      or the sum is zero. */
  function F1Score(precision: Quotient, recall: Quotient): (f: Quotient)
    ensures f.Value? <==> precision.Value? && recall.Value? && precision.value + recall.value != 0.0
    ensures f.Value? && 0.0 <= precision.value && 0.0 <= recall.value ==>
              Min(precision.value, recall.value) <= f.value <= Max(precision.value, recall.value)
  {
    if precision.ZeroDivisionError? || recall.ZeroDivisionError? then ZeroDivisionError
    else
      var p, r := precision.value, recall.value;
      if p + r == 0.0 then ZeroDivisionError
      else
        var f := 2.0 * ((p * r) / (p + r));
        assert 0.0 <= p && 0.0 <= r ==> Min(p, r) <= f <= Max(p, r) by {
          if 0.0 <= p && 0.0 <= r { F1Between(p, r); }
        }
        Value(f)
  }

  /** F1 of the precision and recall built from `tp` true positives: defined exactly when there is
      a true positive, and then in [0, 1]. */
  lemma F1FromCounts(tp: nat, predicted: nat, actual: nat)
    requires tp <= predicted && tp <= actual
    ensures F1Score(Divide(tp, predicted), Divide(tp, actual)).Value? <==> tp > 0
    ensures InUnitInterval(F1Score(Divide(tp, predicted), Divide(tp, actual)))
  {
    var precision, recall := Divide(tp, predicted), Divide(tp, actual);
    if tp > 0 {
      assert precision.value > 0.0 && recall.value > 0.0;
    }
  }

  /** `get_detected_f1_score`: defined exactly when at least one detected record of `gesture` was
      recognised as `gesture`, and then a value between precision and recall, hence in [0, 1]. */
  method GetDetectedF1Score(dataset: seq<Record>, gesture: int) returns (f: Quotient)
    ensures f == F1Score(Divide(Count(dataset, TruePositive(gesture)), Count(dataset, PredictedAs(gesture))),
                         Divide(Count(dataset, TruePositive(gesture)), Count(dataset, DetectedOf(gesture))))
    ensures f.Value? <==> (Count(dataset, TruePositive(gesture)) > 0)
    ensures InUnitInterval(f)
  {
    var precision := GetDetectedPrecision(dataset, gesture);
    var recall := GetDetectedRecall(dataset, gesture);
    CountMonotone(dataset, TruePositive(gesture), PredictedAs(gesture));
    CountMonotone(dataset, TruePositive(gesture), DetectedOf(gesture));
    F1FromCounts(Count(dataset, TruePositive(gesture)), Count(dataset, PredictedAs(gesture)), Count(dataset, DetectedOf(gesture)));
    f := F1Score(precision, recall);
  }
}
