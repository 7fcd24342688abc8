/**
 * `parse_results`: each sanitized line is attributed to at most one of the
 * three container metrics by the first label it contains, the label is
 * removed from it, and the collected values are converted to microseconds.
 */
module Extractor {
  import opened Wrappers
  import opened PyStr
  import opened Durations

  const CreationLabel: string := "Container creation timing results: "
  const LaunchingLabel: string := "Container launching timing results: "
  const RuntimeLabel: string := "Container runtime timing results: "

  /** The three measurements the profile output reports. */
  datatype Metric = Creation | Launching | Runtime

  function Label(m: Metric): (l: string)
    ensures |l| > 0
  {
    match m
    case Creation => CreationLabel
    case Launching => LaunchingLabel
    case Runtime => RuntimeLabel
  }

  /** The key of the metric in the returned dictionary. */
  function Key(m: Metric): string {
    match m
    case Creation => "container_creation"
    case Launching => "container_launching"
    case Runtime => "container_runtime"
  }

  /** The order in which the labels are tried. */
  function Rank(m: Metric): nat {
    match m
    case Creation => 0
    case Launching => 1
    case Runtime => 2
  }

  /**
   * The metric a line belongs to: the first one, in the order creation,
   * launching, runtime, whose label occurs anywhere in the line.
   */
  function Classify(line: string): (r: Option<Metric>)
    ensures r.Some? ==> Contains(line, Label(r.value))
    ensures r.Some? ==> forall m :: Rank(m) < Rank(r.value) ==> !Contains(line, Label(m))
    ensures r.None? <==> forall m :: !Contains(line, Label(m))
  {
    if Contains(line, CreationLabel) then Some(Creation)
    else if Contains(line, LaunchingLabel) then Some(Launching)
    else if Contains(line, RuntimeLabel) then Some(Runtime)
    else None
  }

  /** What is kept of a line: every occurrence of the metric's label removed. */
  function Value(line: string, m: Metric): (v: string)
    ensures |v| < |line| <==> Contains(line, Label(m))
  {
    RemoveAll(line, Label(m))
  }

  /**
   * The value is the line up to the first occurrence of the label, followed
   * by the value of what comes after that occurrence.
   */
  lemma ValueAtFirst(line: string, m: Metric, i: nat)
    requires OccursAt(line, Label(m), i)
    requires forall j :: 0 <= j < i ==> !OccursAt(line, Label(m), j)
    ensures Value(line, m) == line[..i] + Value(line[i + |Label(m)|..], m)
  {
    RemoveAllFirst(line, Label(m), i);
  }

  /** The values the scan collects for `m`, in the order of their lines. */
  function Attributed(lines: seq<string>, m: Metric): (r: seq<string>)
    ensures |r| <= |lines|
  {
    if lines == [] then []
    else
      var line := lines[|lines| - 1];
      var prev := Attributed(lines[..|lines| - 1], m);
      if Classify(line) == Some(m) then prev + [Value(line, m)] else prev
  }

  /** The number of lines that carry none of the labels. */
  function Ignored(lines: seq<string>): (n: nat)
    ensures n <= |lines|
  {
    if lines == [] then 0
    else Ignored(lines[..|lines| - 1]) + if Classify(lines[|lines| - 1]).None? then 1 else 0
  }

  /**
   * Every line is either attributed to exactly one metric or ignored: the
   * three lists and the ignored lines add up to the input.
   */
  lemma {:induction false} AttributedPartition(lines: seq<string>)
    ensures |Attributed(lines, Creation)| + |Attributed(lines, Launching)|
          + |Attributed(lines, Runtime)| + Ignored(lines) == |lines|
  {
    if lines != [] {
      AttributedPartition(lines[..|lines| - 1]);
    }
  }

  /** The scan keeps the order of the lines: it distributes over concatenation. */
  lemma {:induction false} AttributedConcat(a: seq<string>, b: seq<string>, m: Metric)
    ensures Attributed(a + b, m) == Attributed(a, m) + Attributed(b, m)
  {
    if b == [] {
      assert a + b == a;
    } else {
      var b' := b[..|b| - 1];
      assert (a + b)[..|a + b| - 1] == a + b';
      assert (a + b)[|a + b| - 1] == b[|b| - 1];
      AttributedConcat(a, b', m);
    }
  }

  /** A single line contributes its value to its own metric and nothing to the others. */
  lemma AttributedOne(line: string, m: Metric)
    ensures Attributed([line], m) == if Classify(line) == Some(m) then [Value(line, m)] else []
  {
  }

  /** A line without any label does not change what the scan collects. */
  lemma UnlabelledIgnored(a: seq<string>, line: string, b: seq<string>, m: Metric)
    requires forall m' :: !Contains(line, Label(m'))
    ensures Attributed(a + [line] + b, m) == Attributed(a + b, m)
  {
    AttributedConcat(a + [line], b, m);
    AttributedConcat(a, [line], m);
    AttributedOne(line, m);
    AttributedConcat(a, b, m);
  }

  /** The value of every line attributed to `m` converts. */
  predicate LinesConvert(lines: seq<string>, m: Metric) {
    forall i :: 0 <= i < |lines| && Classify(lines[i]) == Some(m) ==> ToMicroseconds(Value(lines[i], m)).Ok?
  }

  /**
   * The values collected for `m` all convert exactly when the value of every
   * line attributed to `m` converts.
   */
  lemma {:induction false} AllConvertAttributed(lines: seq<string>, m: Metric)
    ensures AllConvert(Attributed(lines, m)) <==> LinesConvert(lines, m)
  {
    if lines != [] {
      var init, line := lines[..|lines| - 1], lines[|lines| - 1];
      var prev := Attributed(init, m);
      var here := Classify(line) == Some(m) ==> ToMicroseconds(Value(line, m)).Ok?;
      assert AllConvert(Attributed(lines, m)) <==> AllConvert(prev) && here by {
        if Classify(line) == Some(m) {
          AllConvertSnoc(prev, Value(line, m));
        }
      }
      assert LinesConvert(lines, m) <==> LinesConvert(init, m) && here by {
        LinesConvertLast(lines, m);
      }
      AllConvertAttributed(init, m);
    }
  }

  /** Appending a value keeps every value converting exactly when the new one converts. */
  lemma AllConvertSnoc(values: seq<string>, v: string)
    ensures AllConvert(values + [v]) <==> AllConvert(values) && ToMicroseconds(v).Ok?
  {
    assert forall i :: 0 <= i < |values| ==> (values + [v])[i] == values[i];
    assert (values + [v])[|values|] == v;
  }

  /** `LinesConvert` on a non-empty list, taking off its last line. */
  lemma LinesConvertLast(lines: seq<string>, m: Metric)
    requires |lines| > 0
    ensures LinesConvert(lines, m)
       <==> && LinesConvert(lines[..|lines| - 1], m)
            && (Classify(lines[|lines| - 1]) == Some(m) ==> ToMicroseconds(Value(lines[|lines| - 1], m)).Ok?)
  {
    assert forall i :: 0 <= i < |lines| - 1 ==> lines[..|lines| - 1][i] == lines[i];
  }

  /**
   * The `for` loop of `parse_results`: one pass over the lines, appending
   * each labelled line, with its label removed, to the list of its metric.
   */
  method ScanLines(results: seq<string>) returns (creation: seq<string>, launching: seq<string>, runtime: seq<string>)
    ensures creation == Attributed(results, Creation)
    ensures launching == Attributed(results, Launching)
    ensures runtime == Attributed(results, Runtime)
  {
    creation, launching, runtime := [], [], [];
    for i := 0 to |results|
      invariant creation == Attributed(results[..i], Creation)
      invariant launching == Attributed(results[..i], Launching)
      invariant runtime == Attributed(results[..i], Runtime)
    {
      var line := results[i];
      assert results[..i + 1][..i] == results[..i];
      if Contains(line, CreationLabel) {
        creation := creation + [RemoveAll(line, CreationLabel)];
      } else if Contains(line, LaunchingLabel) {
        launching := launching + [RemoveAll(line, LaunchingLabel)];
      } else if Contains(line, RuntimeLabel) {
        runtime := runtime + [RemoveAll(line, RuntimeLabel)];
      }
    }
    assert results[..|results|] == results;
  }

  /** The dictionary `parse_results` returns, from the three converted lists. */
  function Dictionary(creation: seq<nat>, launching: seq<nat>, runtime: seq<nat>): (d: map<string, seq<nat>>)
    ensures d.Keys == {Key(Creation), Key(Launching), Key(Runtime)}
    ensures d[Key(Creation)] == creation && d[Key(Launching)] == launching && d[Key(Runtime)] == runtime
  {
    map[Key(Creation) := creation, Key(Launching) := launching, Key(Runtime) := runtime]
  }

  /**
   * The conversion of `m`'s values fails with `e`, and those of the metrics
   * converted before it all succeed.
   */
  predicate FailsFirst(results: seq<string>, m: Metric, e: ParseError) {
    && ConvertAll(Attributed(results, m)) == Err(e)
    && (Rank(Creation) < Rank(m) ==> AllConvert(Attributed(results, Creation)))
    && (Rank(Launching) < Rank(m) ==> AllConvert(Attributed(results, Launching)))
  }

  /**
   * What `parse_results` computes: the three lists converted in the order
   * creation, launching, runtime; the first value that does not convert
   * makes the whole call fail with its error.
   */
  function Timings(results: seq<string>): (r: Result<map<string, seq<nat>>, ParseError>)
    ensures r.Ok? <==> && AllConvert(Attributed(results, Creation))
                       && AllConvert(Attributed(results, Launching))
                       && AllConvert(Attributed(results, Runtime))
    ensures r.Ok? ==> r.value.Keys == {Key(Creation), Key(Launching), Key(Runtime)}
    ensures r.Ok? ==> && ConvertsTo(Attributed(results, Creation), r.value[Key(Creation)])
                      && ConvertsTo(Attributed(results, Launching), r.value[Key(Launching)])
                      && ConvertsTo(Attributed(results, Runtime), r.value[Key(Runtime)])
    ensures r.Err? ==> || FailsFirst(results, Creation, r.error)
                       || FailsFirst(results, Launching, r.error)
                       || FailsFirst(results, Runtime, r.error)
  {
    match ConvertAll(Attributed(results, Creation))
    case Err(e) => Err(e)
    case Ok(creation) =>
      match ConvertAll(Attributed(results, Launching))
      case Err(e) => Err(e)
      case Ok(launching) =>
        match ConvertAll(Attributed(results, Runtime))
        case Err(e) => Err(e)
        case Ok(runtime) => Ok(Dictionary(creation, launching, runtime))
  }

  /**
   * `parse_results`: scan the lines, convert the three lists one after the
   * other, and return them under their keys.
   */
  method ParseResults(results: seq<string>) returns (r: Result<map<string, seq<nat>>, ParseError>)
    ensures r == Timings(results)
  {
    var creation, launching, runtime := ScanLines(results);
    var c := ConvertAll(creation);
    if c.Err? {
      return Err(c.error);
    }
    var l := ConvertAll(launching);
    if l.Err? {
      return Err(l.error);
    }
    var t := ConvertAll(runtime);
    if t.Err? {
      return Err(t.error);
    }
    r := Ok(Dictionary(c.value, l.value, t.value));
  }

  /**
   * The call succeeds exactly when, for every labelled line, what is left
   * after removing its label converts.
   */
  lemma TimingsOk(results: seq<string>)
    ensures Timings(results).Ok? <==> forall m :: LinesConvert(results, m)
  {
    AllConvertAttributed(results, Creation);
    AllConvertAttributed(results, Launching);
    AllConvertAttributed(results, Runtime);
  }

  /** A single labelled line whose value does not convert makes the whole call fail. */
  lemma OneBadValueFails(results: seq<string>, i: int, m: Metric)
    requires 0 <= i < |results| && Classify(results[i]) == Some(m)
    requires ToMicroseconds(Value(results[i], m)).Err?
    ensures Timings(results).Err?
  {
    TimingsOk(results);
    assert !LinesConvert(results, m);
  }

  /** Output without any label gives three empty lists. */
  lemma NoLabels(results: seq<string>)
    requires forall i, m :: 0 <= i < |results| ==> !Contains(results[i], Label(m))
    ensures Timings(results) == Ok(Dictionary([], [], []))
  {
    NothingAttributed(results, Creation);
    NothingAttributed(results, Launching);
    NothingAttributed(results, Runtime);
  }

  /** Lines that carry no label give a metric no values. */
  lemma {:induction false} NothingAttributed(lines: seq<string>, m: Metric)
    requires forall i, m' :: 0 <= i < |lines| ==> !Contains(lines[i], Label(m'))
    ensures Attributed(lines, m) == []
  {
    if lines != [] {
      var line := lines[|lines| - 1];
      assert forall m' :: !Contains(line, Label(m'));
      NothingAttributed(lines[..|lines| - 1], m);
    }
  }
}

/**
 * Profile lines as the orchestrator writes them, a label followed by a
 * number and a unit, and what `parse_results` makes of them.
 */
module Profiles {
  import opened Wrappers
  import opened PyStr
  import opened Durations
  import opened Extractor

  /** One reported measurement. */
  datatype Sample = Sample(metric: Metric, amount: nat, unit: Unit)

  /** The line reporting a sample. */
  function Render(s: Sample): string {
    Label(s.metric) + ShowNat(s.amount) + Suffix(s.unit)
  }

  /** Every label starts with 'C' and has no other 'C'. */
  lemma LabelShape(m: Metric)
    ensures Label(m)[0] == 'C' && forall i :: 0 < i < |Label(m)| ==> Label(m)[i] != 'C'
  {
  }

  /** Labels of different metrics already differ at their eleventh character. */
  lemma LabelsDiffer(m: Metric, m': Metric)
    requires m != m'
    ensures |Label(m)| > 10 && |Label(m')| > 10 && Label(m)[10] != Label(m')[10]
  {
  }

  /** A rendered number and unit holds no 'C', the first character of every label. */
  lemma ReadingShape(n: nat, u: Unit)
    ensures forall i :: 0 <= i < |ShowNat(n) + Suffix(u)| ==> (ShowNat(n) + Suffix(u))[i] != 'C'
  {
  }

  /** A rendered line contains no label but its own. */
  lemma OtherLabelAbsent(s: Sample, m: Metric)
    requires m != s.metric
    ensures !Contains(Render(s), Label(m))
  {
    var l, t := Label(s.metric), ShowNat(s.amount) + Suffix(s.unit);
    var line := l + t;
    assert Render(s) == line;
    LabelShape(s.metric);
    LabelShape(m);
    LabelsDiffer(s.metric, m);
    ReadingShape(s.amount, s.unit);
    assert line[10] == l[10];
    forall i | 0 < i < |line| ensures line[i] != Label(m)[0] {
      if i < |l| { assert line[i] == l[i]; } else { assert line[i] == t[i - |l|]; }
    }
    OnlyAtStart(line, Label(m));
  }

  /** A rendered line is attributed to its metric, and its value is the number with its unit. */
  lemma RenderedLine(s: Sample)
    ensures Classify(Render(s)) == Some(s.metric)
    ensures Value(Render(s), s.metric) == ShowNat(s.amount) + Suffix(s.unit)
  {
    var l, t := Label(s.metric), ShowNat(s.amount) + Suffix(s.unit);
    assert Render(s) == l + t;
    assert (l + t)[..|l|] == l;
    assert Contains(l + t, l);
    forall m | m != s.metric ensures !Contains(Render(s), Label(m)) {
      OtherLabelAbsent(s, m);
    }
    RemoveAllLeading(l, t);
    LabelShape(s.metric);
    ReadingShape(s.amount, s.unit);
    AbsentHead(t, l);
  }

  /**
   * Text in front of the label stays in the value: a line with a prefix free
   * of 'C' before a rendered sample yields the prefix, the number and the unit.
   */
  lemma PrefixedValue(prefix: string, s: Sample)
    requires forall i :: 0 <= i < |prefix| ==> prefix[i] != 'C'
    ensures Value(prefix + Render(s), s.metric) == prefix + ShowNat(s.amount) + Suffix(s.unit)
  {
    var m, l, t := s.metric, Label(s.metric), ShowNat(s.amount) + Suffix(s.unit);
    var line := prefix + (l + t);
    assert OccursAt(line, l, |prefix|) && forall j :: 0 <= j < |prefix| ==> !OccursAt(line, l, j) by {
      LabelShape(m);
      FirstOccurrence(prefix, l, t);
    }
    calc {
      Value(prefix + Render(s), m);
      { assert prefix + Render(s) == line; }
      Value(line, m);
      { ValueAtFirst(line, m, |prefix|); }
      line[..|prefix|] + Value(line[|prefix| + |l|..], m);
      { assert line[..|prefix|] == prefix && line[|prefix| + |l|..] == t; }
      prefix + Value(t, m);
      { LabelShape(m); ReadingShape(s.amount, s.unit); AbsentHead(t, l); }
      prefix + t;
    }
  }

  /** In `prefix + l + t`, `l` first occurs right after a prefix free of its first character. */
  lemma FirstOccurrence(prefix: string, l: string, t: string)
    requires |l| > 0 && forall i :: 0 <= i < |prefix| ==> prefix[i] != l[0]
    ensures OccursAt(prefix + (l + t), l, |prefix|)
    ensures forall j :: 0 <= j < |prefix| ==> !OccursAt(prefix + (l + t), l, j)
  {
    var line := prefix + (l + t);
    assert line[|prefix|..|prefix| + |l|] == l;
    forall j | 0 <= j < |prefix| ensures !OccursAt(line, l, j) {
      assert line[j] == prefix[j];
    }
  }

  /**
   * So a line whose label is preceded by text starting with a non-digit
   * makes the conversion fail on that text and the number.
   */
  lemma PrefixedFails(prefix: string, s: Sample)
    requires forall i :: 0 <= i < |prefix| ==> prefix[i] != 'C'
    requires |prefix| > 0 && !IsDigit(prefix[0])
    ensures ToMicroseconds(Value(prefix + Render(s), s.metric)) == Err(InvalidLiteral(prefix + ShowNat(s.amount)))
  {
    PrefixedValue(prefix, s);
    var literal := prefix + ShowNat(s.amount);
    assert literal[0] == prefix[0];
    assert prefix + ShowNat(s.amount) + Suffix(s.unit) == literal + Suffix(s.unit);
    WithUnit(literal, s.unit);
  }

  /** The lines reporting a list of samples, in order. */
  function RenderAll(samples: seq<Sample>): (lines: seq<string>)
    ensures |lines| == |samples|
  {
    if samples == [] then []
    else RenderAll(samples[..|samples| - 1]) + [Render(samples[|samples| - 1])]
  }

  /** The microseconds of the samples of `m`, in order. */
  function Expected(samples: seq<Sample>, m: Metric): (micros: seq<nat>)
    ensures |micros| <= |samples|
  {
    if samples == [] then []
    else
      var s := samples[|samples| - 1];
      var prev := Expected(samples[..|samples| - 1], m);
      if s.metric == m then prev + [s.amount * Factor(s.unit)] else prev
  }

  /** Appending a value and its conversion keeps the two lists matched. */
  lemma ConvertsToSnoc(values: seq<string>, micros: seq<nat>, v: string, n: nat)
    requires ConvertsTo(values, micros) && ToMicroseconds(v) == Ok(n)
    ensures ConvertsTo(values + [v], micros + [n])
  {
  }

  /** The values collected from rendered samples convert to the samples' microseconds. */
  lemma {:induction false} RenderedConverts(samples: seq<Sample>, m: Metric)
    ensures ConvertsTo(Attributed(RenderAll(samples), m), Expected(samples, m))
  {
    if samples != [] {
      var init, s := samples[..|samples| - 1], samples[|samples| - 1];
      var lines := RenderAll(samples);
      RenderedConverts(init, m);
      assert lines[..|lines| - 1] == RenderAll(init);
      RenderedLine(s);
      if s.metric == m {
        ShowWithUnit(s.amount, s.unit);
        ConvertsToSnoc(Attributed(RenderAll(init), m), Expected(init, m),
                       ShowNat(s.amount) + Suffix(s.unit), s.amount * Factor(s.unit));
      }
    }
  }

  /**
   * Round trip: parsing the lines that report a list of samples gives, under
   * each key, the microseconds of that metric's samples in their order.
   */
  lemma RoundTrip(samples: seq<Sample>)
    ensures Timings(RenderAll(samples))
         == Ok(Dictionary(Expected(samples, Creation), Expected(samples, Launching), Expected(samples, Runtime)))
  {
    var lines := RenderAll(samples);
    RenderedConverts(samples, Creation);
    RenderedConverts(samples, Launching);
    RenderedConverts(samples, Runtime);
    var d := Timings(lines).value;
    ConvertsToUnique(Attributed(lines, Creation), d[Key(Creation)], Expected(samples, Creation));
    ConvertsToUnique(Attributed(lines, Launching), d[Key(Launching)], Expected(samples, Launching));
    ConvertsToUnique(Attributed(lines, Runtime), d[Key(Runtime)], Expected(samples, Runtime));
  }

  /** Five milliseconds of creation and 200 microseconds of runtime, nothing for launching. */
  lemma TwoLines(lines: seq<string>)
    requires lines == ["Container creation timing results: 5ms", "Container runtime timing results: 200us"]
    ensures Timings(lines) == Ok(Dictionary([5000], [], [200]))
  {
    var a, b := Sample(Creation, 5, Millis), Sample(Runtime, 200, Micros);
    TwoSamples(a, b, lines);
    RoundTrip([a, b]);
  }

  /** Two rendered samples, one creation line in milliseconds and one runtime line in microseconds. */
  lemma TwoSamples(a: Sample, b: Sample, lines: seq<string>)
    requires a == Sample(Creation, 5, Millis) && b == Sample(Runtime, 200, Micros)
    requires lines == ["Container creation timing results: 5ms", "Container runtime timing results: 200us"]
    ensures RenderAll([a, b]) == lines
    ensures Expected([a, b], Creation) == [5000]
    ensures Expected([a, b], Launching) == []
    ensures Expected([a, b], Runtime) == [200]
  {
    assert [a, b][..1] == [a];
    assert [a][..0] == [];
    assert ShowNat(5) == "5";
    assert ShowNat(200) == "200";
    assert Render(a) == lines[0] && Render(b) == lines[1];
    assert RenderAll([a, b]) == [Render(a)] + [Render(b)];
  }
}
