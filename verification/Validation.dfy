/** Which structural problems a series' label list has, and the loop that finds them. */
module Validation {
  import opened Strings

  datatype Label = Label(name: string, value: string)

  datatype Limits = Limits(maxLabels: nat, maxLabelValueLength: nat)

  datatype Reason =
    | MissingMetricName
    | EmptyMetricName
    | InvalidMetricName
    | EmptyLabelName
    | InvalidLabelName
    | EmptyLabelValue
    | DuplicateLabelName
    | OutOfOrderLabels
    | ExcessiveLabelCount
    | ExcessiveLabelValueLength

  const METRIC_NAME_LABEL := "__name__"

  predicate NameStart(c: char) {
    'a' <= c <= 'z' || 'A' <= c <= 'Z' || c == '_'
  }

  predicate Digit(c: char) {
    '0' <= c <= '9'
  }

  predicate ValidLabelName(s: string) {
    && s != [] && NameStart(s[0])
    && forall i :: 1 <= i < |s| ==> NameStart(s[i]) || Digit(s[i])
  }

  predicate ValidMetricName(s: string) {
    && s != [] && (NameStart(s[0]) || s[0] == ':')
    && forall i :: 1 <= i < |s| ==> NameStart(s[i]) || Digit(s[i]) || s[i] == ':'
  }

  /** A letter or an underscore, by its byte. */
  predicate LetterByte(c: char) {
    var n := c as int;
    65 <= n <= 90 || 97 <= n <= 122 || n == 95
  }

  predicate DigitByte(c: char) {
    48 <= c as int <= 57
  }

  /** A label name is letters, digits and underscores and begins with no digit; a metric name may have colons. */
  lemma NamesMean(s: string)
    ensures ValidLabelName(s) <==> s != "" && LetterByte(s[0]) && forall c :: c in s ==> LetterByte(c) || DigitByte(c)
    ensures ValidMetricName(s) <==>
              && s != "" && (LetterByte(s[0]) || s[0] == ':')
              && forall c :: c in s ==> LetterByte(c) || DigitByte(c) || c == ':'
  {
    forall i | 0 <= i < |s|
      ensures NameStart(s[i]) == LetterByte(s[i]) && Digit(s[i]) == DigitByte(s[i]) && s[i] in s
    {
    }
    hide NameStart;
    hide Digit;
    hide LetterByte;
    hide DigitByte;
  }

  // The specification: what each reason says about the whole list.

  ghost predicate NamesNondecreasing(labels: seq<Label>) {
    forall i, j :: 0 <= i < j < |labels| ==> AtMost(labels[i].name, labels[j].name)
  }

  ghost predicate NamesDistinct(labels: seq<Label>) {
    forall i, j :: 0 <= i < j < |labels| ==> labels[i].name != labels[j].name
  }

  /** The complaints that one label can cause by itself. An unnamed label is not looked at further. */
  ghost predicate LabelHas(reason: Reason, entry: Label, limits: Limits) {
    if entry.name == "" then reason == EmptyLabelName
    else match reason
      case InvalidLabelName => !ValidLabelName(entry.name)
      case ExcessiveLabelValueLength => |entry.value| > limits.maxLabelValueLength
      case EmptyMetricName => entry.name == METRIC_NAME_LABEL && entry.value == ""
      case InvalidMetricName =>
        entry.name == METRIC_NAME_LABEL && entry.value != "" && !ValidMetricName(entry.value)
      case EmptyLabelValue => entry.name != METRIC_NAME_LABEL && entry.value == ""
      case _ => false
  }

  ghost predicate Has(reason: Reason, labels: seq<Label>, limits: Limits) {
    match reason
    case MissingMetricName => forall i :: 0 <= i < |labels| ==> labels[i].name != METRIC_NAME_LABEL
    case ExcessiveLabelCount => |labels| > limits.maxLabels
    case OutOfOrderLabels => !NamesNondecreasing(labels)
    case DuplicateLabelName => !NamesDistinct(labels)
    case _ => exists i :: 0 <= i < |labels| && LabelHas(reason, labels[i], limits)
  }

  /** A list without any complaint. */
  ghost predicate WellFormedSeries(labels: seq<Label>, limits: Limits) {
    && labels != [] && |labels| <= limits.maxLabels
    && (forall i, j :: 0 <= i < j < |labels| ==> Less(labels[i].name, labels[j].name))
    && (forall i :: 0 <= i < |labels| ==> ValidLabelName(labels[i].name))
    && (forall i :: 0 <= i < |labels| ==> 0 < |labels[i].value| <= limits.maxLabelValueLength)
    && (exists i :: 0 <= i < |labels| && labels[i].name == METRIC_NAME_LABEL && ValidMetricName(labels[i].value))
  }

  /** The reasons about the list as a whole, said on the labels. */
  lemma ListReasonsMean(labels: seq<Label>, limits: Limits)
    ensures Has(MissingMetricName, labels, limits) <==> forall l :: l in labels ==> l.name != "__name__"
    ensures Has(ExcessiveLabelCount, labels, limits) <==> |labels| > limits.maxLabels
    ensures Has(DuplicateLabelName, labels, limits) <==>
              exists i, j :: 0 <= i < j < |labels| && labels[i].name == labels[j].name
    ensures Has(OutOfOrderLabels, labels, limits) <==>
              exists i, j :: 0 <= i < j < |labels| && Less(labels[j].name, labels[i].name)
  {
    hide Less;
  }

  /** The reasons about a metric name, said on the labels. */
  lemma MetricReasonsMean(labels: seq<Label>, limits: Limits)
    ensures Has(EmptyMetricName, labels, limits) <==> exists l :: l in labels && l.name == "__name__" && l.value == ""
    ensures Has(InvalidMetricName, labels, limits) <==>
              exists l :: l in labels && l.name == "__name__" && l.value != "" && !ValidMetricName(l.value)
  {
    OneLabelMeans(EmptyMetricName, labels, limits);
    OneLabelMeans(InvalidMetricName, labels, limits);
    hide Has;
    hide ValidMetricName;
  }

  /** The reasons about other names and values, said on the labels. */
  lemma LabelReasonsMean(labels: seq<Label>, limits: Limits)
    ensures Has(EmptyLabelName, labels, limits) <==> exists l :: l in labels && l.name == ""
    ensures Has(InvalidLabelName, labels, limits) <==>
              exists l :: l in labels && l.name != "" && !ValidLabelName(l.name)
    ensures Has(EmptyLabelValue, labels, limits) <==>
              exists l :: l in labels && l.name != "" && l.name != "__name__" && l.value == ""
    ensures Has(ExcessiveLabelValueLength, labels, limits) <==>
              exists l :: l in labels && l.name != "" && |l.value| > limits.maxLabelValueLength
  {
    OneLabelMeans(EmptyLabelName, labels, limits);
    OneLabelMeans(InvalidLabelName, labels, limits);
    OneLabelMeans(EmptyLabelValue, labels, limits);
    OneLabelMeans(ExcessiveLabelValueLength, labels, limits);
    hide Has;
    hide ValidLabelName;
  }

  lemma OneLabelMeans(r: Reason, labels: seq<Label>, limits: Limits)
    requires r !in {MissingMetricName, DuplicateLabelName, OutOfOrderLabels, ExcessiveLabelCount}
    ensures Has(r, labels, limits) <==> exists l :: l in labels && LabelHas(r, l, limits)
  {
    hide LabelHas;
  }

  lemma NoReasonMeansWellFormed(labels: seq<Label>, limits: Limits)
    ensures (forall r :: !Has(r, labels, limits)) <==> WellFormedSeries(labels, limits)
  {
    hide Has;
    hide WellFormedSeries;
    if forall r :: !Has(r, labels, limits) {
      CleanIsWellFormed(labels, limits);
    }
    if WellFormedSeries(labels, limits) {
      forall r
        ensures !Has(r, labels, limits)
      {
        WellFormedIsClean(r, labels, limits);
      }
    }
  }

  lemma CleanIsWellFormed(labels: seq<Label>, limits: Limits)
    requires forall r :: !Has(r, labels, limits)
    ensures WellFormedSeries(labels, limits)
  {
    hide LabelHas;
    assert !Has(OutOfOrderLabels, labels, limits) && !Has(DuplicateLabelName, labels, limits);
    assert !Has(MissingMetricName, labels, limits) && !Has(ExcessiveLabelCount, labels, limits);
    forall i, j | 0 <= i < j < |labels|
      ensures Less(labels[i].name, labels[j].name)
    {
      LessIsTotal(labels[i].name, labels[j].name);
    }
    forall i | 0 <= i < |labels|
      ensures ValidLabelName(labels[i].name) && 0 < |labels[i].value| <= limits.maxLabelValueLength
      ensures labels[i].name == METRIC_NAME_LABEL ==> ValidMetricName(labels[i].value)
    {
      NoComplaintAbout(labels, limits, i);
    }
  }

  lemma WellFormedIsClean(r: Reason, labels: seq<Label>, limits: Limits)
    requires WellFormedSeries(labels, limits)
    ensures !Has(r, labels, limits)
  {
    hide ValidMetricName;
    var m :| 0 <= m < |labels| && labels[m].name == METRIC_NAME_LABEL && ValidMetricName(labels[m].value);
    forall i, j | 0 <= i < j < |labels|
      ensures AtMost(labels[i].name, labels[j].name) && labels[i].name != labels[j].name
    {
      LessIsAsymmetric(labels[i].name, labels[j].name);
      LessIsIrreflexive(labels[i].name);
    }
    forall i | 0 <= i < |labels|
      ensures !LabelHas(r, labels[i], limits)
    {
      assert ValidLabelName(labels[i].name);
      assert labels[i].name == METRIC_NAME_LABEL ==> i == m;
    }
  }

  lemma NoComplaintAbout(labels: seq<Label>, limits: Limits, i: nat)
    requires i < |labels| && forall r :: !Has(r, labels, limits)
    ensures forall r :: !LabelHas(r, labels[i], limits)
    ensures ValidLabelName(labels[i].name) && 0 < |labels[i].value| <= limits.maxLabelValueLength
    ensures labels[i].name == METRIC_NAME_LABEL ==> ValidMetricName(labels[i].value)
  {
    assert !Has(EmptyLabelName, labels, limits) && !Has(InvalidLabelName, labels, limits);
    assert !Has(ExcessiveLabelValueLength, labels, limits) && !Has(EmptyLabelValue, labels, limits);
    assert !Has(EmptyMetricName, labels, limits) && !Has(InvalidMetricName, labels, limits);
    forall r
      ensures !LabelHas(r, labels[i], limits)
    {
      assert !Has(r, labels, limits);
    }
    assert !LabelHas(EmptyLabelName, labels[i], limits);
    assert !LabelHas(InvalidLabelName, labels[i], limits);
    assert !LabelHas(ExcessiveLabelValueLength, labels[i], limits);
    assert !LabelHas(EmptyLabelValue, labels[i], limits) && !LabelHas(EmptyMetricName, labels[i], limits);
    assert !LabelHas(InvalidMetricName, labels[i], limits);
  }

  // The loop compares neighbours only. The next lemmas say when that is enough.

  ghost predicate StepsDown(labels: seq<Label>, n: nat)
    requires n <= |labels|
  {
    exists i :: 1 <= i < n && Less(labels[i].name, labels[i - 1].name)
  }

  ghost predicate StepsLevel(labels: seq<Label>, n: nat)
    requires n <= |labels|
  {
    exists i :: 1 <= i < n && labels[i].name == labels[i - 1].name
  }

  lemma {:induction false} NeighboursInOrder(labels: seq<Label>, i: nat, j: nat)
    requires i < j < |labels| && !StepsDown(labels, |labels|)
    ensures AtMost(labels[i].name, labels[j].name)
  {
    assert AtMost(labels[j - 1].name, labels[j].name);
    if i < j - 1 {
      NeighboursInOrder(labels, i, j - 1);
      AtMostIsTransitive(labels[i].name, labels[j - 1].name, labels[j].name);
    }
  }

  lemma OrderByNeighbours(labels: seq<Label>)
    ensures StepsDown(labels, |labels|) <==> !NamesNondecreasing(labels)
  {
    if !StepsDown(labels, |labels|) {
      forall i, j | 0 <= i < j < |labels|
        ensures AtMost(labels[i].name, labels[j].name)
      {
        NeighboursInOrder(labels, i, j);
      }
    }
  }

  /** In an ordered list equal names are neighbours. */
  lemma DuplicatesByNeighbours(labels: seq<Label>)
    requires NamesNondecreasing(labels)
    ensures StepsLevel(labels, |labels|) <==> !NamesDistinct(labels)
  {
    if !NamesDistinct(labels) {
      var i, j :| 0 <= i < j < |labels| && labels[i].name == labels[j].name;
      AtMostIsAntisymmetric(labels[i].name, labels[i + 1].name);
      assert labels[i + 1].name == labels[i].name;
    }
  }

  /** What the first n labels have shown by the time the loop has passed them. */
  ghost predicate ShownBy(r: Reason, labels: seq<Label>, limits: Limits, n: nat)
    requires n <= |labels|
  {
    match r
    case MissingMetricName => false
    case ExcessiveLabelCount => |labels| > limits.maxLabels
    case OutOfOrderLabels => StepsDown(labels, n)
    case DuplicateLabelName => StepsLevel(labels, n)
    case _ => exists i :: 0 <= i < n && LabelHas(r, labels[i], limits)
  }

  /** What label n adds. */
  ghost predicate AddedBy(r: Reason, labels: seq<Label>, limits: Limits, n: nat)
    requires n < |labels|
  {
    || (r == OutOfOrderLabels && n > 0 && Less(labels[n].name, labels[n - 1].name))
    || (r == DuplicateLabelName && n > 0 && labels[n].name == labels[n - 1].name)
    || LabelHas(r, labels[n], limits)
  }

  lemma ShownByNext(r: Reason, labels: seq<Label>, limits: Limits, n: nat)
    requires n < |labels|
    ensures ShownBy(r, labels, limits, n + 1) <==> ShownBy(r, labels, limits, n) || AddedBy(r, labels, limits, n)
  {
    hide ValidLabelName;
    hide ValidMetricName;
    hide Less;
    var own := LabelHas(r, labels[n], limits);
    if r in {MissingMetricName, ExcessiveLabelCount, OutOfOrderLabels, DuplicateLabelName} {
      assert !own;
    }
    hide LabelHas;
  }

  ghost predicate Gathered(reasons: set<Reason>, labels: seq<Label>, limits: Limits, n: nat)
    requires n <= |labels|
  {
    forall r :: r in reasons <==> ShownBy(r, labels, limits, n)
  }

  /** The part of the loop body that looks at one label alone. */
  method CheckLabel(entry: Label, limits: Limits) returns (own: set<Reason>, isMetricName: bool)
    ensures forall r :: r in own <==> LabelHas(r, entry, limits)
    ensures isMetricName <==> entry.name == METRIC_NAME_LABEL
  {
    own, isMetricName := {}, false;
    if entry.name == "" {
      return {EmptyLabelName}, false;
    }
    if !ValidLabelName(entry.name) {
      own := own + {InvalidLabelName};
    }
    if |entry.value| > limits.maxLabelValueLength {
      own := own + {ExcessiveLabelValueLength};
    }
    if entry.name == METRIC_NAME_LABEL {
      isMetricName := true;
      if entry.value == "" {
        own := own + {EmptyMetricName};
      } else if !ValidMetricName(entry.value) {
        own := own + {InvalidMetricName};
      }
      return;
    }
    if entry.value == "" {
      own := own + {EmptyLabelValue};
    }
  }

  lemma GatherNone(labels: seq<Label>, limits: Limits)
    ensures Gathered(if |labels| > limits.maxLabels then {ExcessiveLabelCount} else {}, labels, limits, 0)
  {
  }

  lemma GatherNext(labels: seq<Label>, limits: Limits, n: nat, before: set<Reason>, added: set<Reason>)
    requires n < |labels| && Gathered(before, labels, limits, n)
    requires forall r :: r in added <==> AddedBy(r, labels, limits, n)
    ensures Gathered(before + added, labels, limits, n + 1)
  {
    hide ShownBy;
    hide AddedBy;
    forall r
      ensures r in before + added <==> ShownBy(r, labels, limits, n + 1)
    {
      ShownByNext(r, labels, limits, n);
    }
  }

  /** Once all labels are seen, what is still missing is the set scan and the metric name. */
  lemma GatherAll(labels: seq<Label>, limits: Limits, gathered: set<Reason>)
    requires Gathered(gathered, labels, limits, |labels|)
    ensures forall r :: r != MissingMetricName && r != DuplicateLabelName ==>
              (r in gathered <==> Has(r, labels, limits))
    ensures MissingMetricName !in gathered
    ensures DuplicateLabelName in gathered ==> Has(DuplicateLabelName, labels, limits)
    ensures NamesNondecreasing(labels) ==>
              (DuplicateLabelName in gathered <==> Has(DuplicateLabelName, labels, limits))
  {
    hide LabelHas;
    hide Less;
    OrderByNeighbours(labels);
    if NamesNondecreasing(labels) {
      DuplicatesByNeighbours(labels);
    }
    assert ShownBy(MissingMetricName, labels, limits, |labels|) == false;
    assert ShownBy(DuplicateLabelName, labels, limits, |labels|) == StepsLevel(labels, |labels|);
  }

  /** Whether some name occurs twice, by collecting the names seen so far. */
  method HasRepeatedName(labels: seq<Label>) returns (repeated: bool)
    ensures repeated <==> !NamesDistinct(labels)
  {
    var seen: set<string> := {};
    for idx := 0 to |labels|
      invariant forall name :: name in seen <==> exists i :: 0 <= i < idx && labels[i].name == name
      invariant NamesDistinct(labels[..idx])
    {
      if labels[idx].name in seen {
        return true;
      }
      seen := seen + {labels[idx].name};
    }
    assert labels[..|labels|] == labels;
    return false;
  }

  /** The main loop: each label by itself, and against its predecessor. */
  method ScanLabels(labels: seq<Label>, limits: Limits)
    returns (reasons: set<Reason>, inNameOrder: bool, metricSeen: bool)
    ensures Gathered(reasons, labels, limits, |labels|)
    ensures inNameOrder <==> !StepsDown(labels, |labels|)
    ensures metricSeen <==> exists i :: 0 <= i < |labels| && labels[i].name == METRIC_NAME_LABEL
  {
    hide Gathered;
    hide LabelHas;
    hide Less;
    reasons := {};
    if |labels| > limits.maxLabels {
      reasons := {ExcessiveLabelCount};
    }
    GatherNone(labels, limits);
    metricSeen, inNameOrder := false, true;
    for idx := 0 to |labels|
      invariant Gathered(reasons, labels, limits, idx)
      invariant inNameOrder <==> !StepsDown(labels, idx)
      invariant metricSeen <==> exists i :: 0 <= i < idx && labels[i].name == METRIC_NAME_LABEL
    {
      var added, isMetricName := CheckLabel(labels[idx], limits);
      if idx > 0 && Less(labels[idx].name, labels[idx - 1].name) {
        added := added + {OutOfOrderLabels};
        inNameOrder := false;
      }
      if idx > 0 && labels[idx].name == labels[idx - 1].name {
        added := added + {DuplicateLabelName};
      }
      GatherNext(labels, limits, idx, reasons, added);
      reasons := reasons + added;
      metricSeen := metricSeen || isMetricName;
    }
  }

  /** The reasons reported are exactly those the list has. */
  method ValidateSeries(labels: seq<Label>, limits: Limits) returns (reasons: set<Reason>)
    ensures forall r :: r in reasons <==> Has(r, labels, limits)
  {
    hide Gathered;
    hide LabelHas;
    hide Less;
    if |labels| == 0 {
      return {MissingMetricName};
    }
    var inNameOrder, metricSeen;
    reasons, inNameOrder, metricSeen := ScanLabels(labels, limits);
    GatherAll(labels, limits, reasons);
    OrderByNeighbours(labels);
    if !inNameOrder {
      var repeated := HasRepeatedName(labels);
      if repeated {
        reasons := reasons + {DuplicateLabelName};
      }
    }
    if !metricSeen {
      reasons := reasons + {MissingMetricName};
    }
  }
}
