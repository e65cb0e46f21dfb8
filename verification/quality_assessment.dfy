/**
 * Model of assess_fundus_image_quality.py: each image is classified from
 * its brightness, contrast and sharpness by fixed thresholds, and one record
 * per readable file of the folder is collected in listing order.
 *
 * The three metrics (mean, standard deviation and variance of the
 * Laplacian of the grey image) are computed by the image library; here they
 * are given as real numbers.
 */
module QualityAssessment {

  import opened Wrappers
  import opened PosixPath

  const Good := "Good"
  const TooDark := "Poor (Too Dark)"
  const TooBright := "Poor (Too Bright)"
  const LowContrast := "Poor (Low Contrast)"
  const Blurry := "Poor (Blurry)"

  /** The five labels an assessment can carry. */
  const Labels: set<string> := {Good, TooDark, TooBright, LowContrast, Blurry}

  const MinBrightness: real := 40.0
  const MaxBrightness: real := 200.0
  const MinContrast: real := 20.0
  const MinSharpness: real := 50.0

  datatype Metrics = Metrics(brightness: real, contrast: real, sharpness: real)

  /** Brightness within [40, 200]. */
  predicate WellExposed(m: Metrics) {
    MinBrightness <= m.brightness <= MaxBrightness
  }

  /**
   * Lines 52-67: the first failing check names the verdict, in the order
   * too dark, too bright, low contrast, blurry; an image failing none is
   * "Good". Each verdict is characterised on its own: what the earlier checks
   * must have passed and what its own check must have failed.
   */
  function Assess(m: Metrics): (verdict: string)
    ensures verdict in Labels
    ensures verdict == TooDark <==> m.brightness < MinBrightness
    ensures verdict == TooBright <==> m.brightness > MaxBrightness
    ensures verdict == LowContrast <==> WellExposed(m) && m.contrast < MinContrast
    ensures verdict == Blurry <==> WellExposed(m) && m.contrast >= MinContrast && m.sharpness < MinSharpness
    ensures verdict == Good <==> WellExposed(m) && m.contrast >= MinContrast && m.sharpness >= MinSharpness
  {
    if m.brightness < MinBrightness then TooDark
    else if m.brightness > MaxBrightness then TooBright
    else if m.contrast < MinContrast then LowContrast
    else if m.sharpness < MinSharpness then Blurry
    else Good
  }

  /** The comparisons are strict: a metric exactly at its threshold passes that check. */
  lemma ThresholdsPass(m: Metrics)
    ensures m.brightness == MinBrightness ==> Assess(m) != TooDark
    ensures m.brightness == MaxBrightness ==> Assess(m) != TooBright
    ensures m.contrast == MinContrast ==> Assess(m) != LowContrast
    ensures m.sharpness == MinSharpness ==> Assess(m) != Blurry
    ensures m == Metrics(MinBrightness, MinContrast, MinSharpness) ==> Assess(m) == Good
    ensures m == Metrics(MaxBrightness, MinContrast, MinSharpness) ==> Assess(m) == Good
  {
  }

  /** A check that fails an image, and the verdict it then gets. */
  datatype Rule = Rule(fails: Metrics -> bool, verdict: string)

  /** The classification as an ordered list of checks. */
  function QualityRules(): seq<Rule> {
    [ Rule((m: Metrics) => m.brightness < MinBrightness, TooDark),
      Rule((m: Metrics) => m.brightness > MaxBrightness, TooBright),
      Rule((m: Metrics) => m.contrast < MinContrast, LowContrast),
      Rule((m: Metrics) => m.sharpness < MinSharpness, Blurry) ]
  }

  /**
   * The verdict of the first rule that fails `m`, or `pass` when none does:
   * every rule before the chosen one passes `m`.
   */
  function FirstFailing(rules: seq<Rule>, m: Metrics, pass: string): (verdict: string)
    ensures forall i :: 0 <= i < |rules| && rules[i].fails(m) && (forall j :: 0 <= j < i ==> !rules[j].fails(m)) ==>
      verdict == rules[i].verdict
    ensures (forall i :: 0 <= i < |rules| ==> !rules[i].fails(m)) ==> verdict == pass
    ensures verdict == pass || exists i :: 0 <= i < |rules| && rules[i].fails(m) && rules[i].verdict == verdict
    decreases |rules|
  {
    if rules == [] then pass
    else if rules[0].fails(m) then rules[0].verdict
    else
      var verdict := FirstFailing(rules[1..], m, pass);
      assert forall i :: 1 <= i < |rules| ==> rules[1..][i - 1] == rules[i];
      verdict
  }

  /** The if/elif chain is the ordered rule list, with "Good" when every check passes. */
  lemma {:induction false} AssessIsFirstFailingRule(m: Metrics)
    ensures Assess(m) == FirstFailing(QualityRules(), m, Good)
  {
    var rules := QualityRules();
    assert rules[1..][1..][1..][1..] == [];
    assert FirstFailing(rules[1..][1..][1..][1..], m, Good) == Good;
  }

  /** One entry of the JSON report. */
  datatype QualityRecord = QualityRecord(
    imageName: string, brightness: real, contrast: real, sharpness: real, assessment: string)

  /**
   * `assess_fundus_image_quality` (lines 10-78): no record for an image that
   * cannot be read; otherwise the record names the file by the last component
   * of its path and carries the metrics and their assessment.
   */
  function AssessImage(path: string, metrics: Option<Metrics>): (rec: Option<QualityRecord>)
    ensures rec.Some? <==> metrics.Some?
    ensures rec.Some? ==> rec.value.imageName == Basename(path)
    ensures rec.Some? ==> Sep !in rec.value.imageName && IsSuffix(rec.value.imageName, path)
    ensures rec.Some? ==> rec.value.assessment in Labels
    ensures rec.Some? ==>
      && rec.value.brightness == metrics.value.brightness
      && rec.value.contrast == metrics.value.contrast
      && rec.value.sharpness == metrics.value.sharpness
      && rec.value.assessment == Assess(metrics.value)
  {
    match metrics
    case None => None
    case Some(m) => Some(QualityRecord(Basename(path), m.brightness, m.contrast, m.sharpness, Assess(m)))
  }

  /** One listing entry of the input folder, with the metrics of its image if it can be read. */
  datatype FolderEntry = FolderEntry(name: string, isFile: bool, metrics: Option<Metrics>)

  /** An entry that yields a record: a file whose image can be read. */
  predicate Assessable(entry: FolderEntry) {
    entry.isFile && entry.metrics.Some?
  }

  /** The record the loop appends for an assessable entry. */
  function RecordOf(folder: string, entry: FolderEntry): QualityRecord
    requires Assessable(entry)
  {
    AssessImage(Join(folder, entry.name), entry.metrics).value
  }

  /** The results list after the loop over `entries`. */
  function Assessed(folder: string, entries: seq<FolderEntry>): seq<QualityRecord>
    decreases |entries|
  {
    if entries == [] then []
    else
      var last := entries[|entries| - 1];
      var rest := Assessed(folder, entries[..|entries| - 1]);
      if last.isFile then
        match AssessImage(Join(folder, last.name), last.metrics)
        case Some(rec) => rest + [rec]
        case None => rest
      else rest
  }

  /**
   * Lines 83-100: every listing entry that is a file is assessed, and the
   * records of the readable ones are appended to `all_results`.
   */
  method AssessFolder(folder: string, entries: seq<FolderEntry>) returns (allResults: seq<QualityRecord>)
    ensures allResults == Assessed(folder, entries)
  {
    allResults := [];
    for i := 0 to |entries|
      invariant allResults == Assessed(folder, entries[..i])
    {
      assert entries[..i + 1][..i] == entries[..i];
      var entry := entries[i];
      var inputPath := Join(folder, entry.name);
      if entry.isFile {
        var qualityMetrics := AssessImage(inputPath, entry.metrics);
        if qualityMetrics.Some? {
          allResults := allResults + [qualityMetrics.value];
        }
      }
    }
    assert entries[..|entries|] == entries;
  }

  /** How many of `entries` are assessable. */
  function CountAssessable(entries: seq<FolderEntry>): (n: nat)
    ensures n <= |entries|
    decreases |entries|
  {
    if entries == [] then 0
    else CountAssessable(entries[..|entries| - 1]) + if Assessable(entries[|entries| - 1]) then 1 else 0
  }

  /** The assessable entries, in listing order. */
  function AssessableEntries(entries: seq<FolderEntry>): (kept: seq<FolderEntry>)
    ensures |kept| == CountAssessable(entries)
    ensures forall k :: 0 <= k < |kept| ==> Assessable(kept[k]) && kept[k] in entries
    decreases |entries|
  {
    if entries == [] then []
    else
      var last := entries[|entries| - 1];
      var rest := AssessableEntries(entries[..|entries| - 1]);
      assert forall e :: e in entries[..|entries| - 1] ==> e in entries;
      if Assessable(last) then rest + [last] else rest
  }

  /**
   * Every assessable entry is kept, in listing order: the one at index i
   * of the listing sits at the position given by the number of assessable
   * entries before it.
   */
  lemma {:induction false} AssessableEntriesInOrder(entries: seq<FolderEntry>)
    ensures forall i :: 0 <= i < |entries| && Assessable(entries[i]) ==>
      CountAssessable(entries[..i]) < |AssessableEntries(entries)| &&
      AssessableEntries(entries)[CountAssessable(entries[..i])] == entries[i]
    decreases |entries|
  {
    if entries != [] {
      var init := entries[..|entries| - 1];
      AssessableEntriesInOrder(init);
      assert forall i :: 0 <= i < |init| ==> entries[..i] == init[..i] && entries[i] == init[i];
      assert entries[..|init|] == init;
    }
  }

  /** Each assessable entry is kept as often as it is listed, and nothing else is kept. */
  lemma {:induction false} AssessableEntriesCounts(entries: seq<FolderEntry>)
    ensures forall e :: multiset(AssessableEntries(entries))[e] == if Assessable(e) then multiset(entries)[e] else 0
    decreases |entries|
  {
    if entries != [] {
      var init := entries[..|entries| - 1];
      var last := entries[|entries| - 1];
      AssessableEntriesCounts(init);
      assert entries == init + [last];
      assert multiset(entries) == multiset(init) + multiset{last};
      if Assessable(last) {
        assert AssessableEntries(entries) == AssessableEntries(init) + [last];
        assert multiset(AssessableEntries(entries)) == multiset(AssessableEntries(init)) + multiset{last};
      }
    }
  }

  /**
   * `all_results` holds exactly one record per assessable entry, in listing
   * order: unreadable files and non-files add nothing.
   */
  lemma {:induction false} AssessedFollowsListing(folder: string, entries: seq<FolderEntry>)
    ensures |Assessed(folder, entries)| == |AssessableEntries(entries)|
    ensures forall k :: 0 <= k < |AssessableEntries(entries)| ==>
      Assessed(folder, entries)[k] == RecordOf(folder, AssessableEntries(entries)[k])
    decreases |entries|
  {
    if entries != [] {
      AssessedFollowsListing(folder, entries[..|entries| - 1]);
    }
  }

  /**
   * When the entries are plain names, the records' image names are the
   * names of the assessable entries, in listing order.
   */
  lemma AssessedNames(folder: string, entries: seq<FolderEntry>)
    requires forall i :: 0 <= i < |entries| ==> PlainName(entries[i].name)
    ensures |Assessed(folder, entries)| == |AssessableEntries(entries)|
    ensures forall k :: 0 <= k < |Assessed(folder, entries)| ==>
      Assessed(folder, entries)[k].imageName == AssessableEntries(entries)[k].name
  {
    AssessedFollowsListing(folder, entries);
    var kept := AssessableEntries(entries);
    forall k | 0 <= k < |kept|
      ensures Assessed(folder, entries)[k].imageName == kept[k].name
    {
      BasenameOfJoin(folder, kept[k].name);
    }
  }

  /** Every record the loop collects carries one of the five labels. */
  lemma AssessedLabels(folder: string, entries: seq<FolderEntry>)
    ensures forall k :: 0 <= k < |Assessed(folder, entries)| ==> Assessed(folder, entries)[k].assessment in Labels
  {
    AssessedFollowsListing(folder, entries);
  }
}
