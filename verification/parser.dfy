/** The response parser of the travel agent (travel_agent/core/parser.py): it
    splits raw model text into a thought and an action, turns an action string
    into a tool name and keyword arguments, and cuts a response that holds
    several reasoning steps down to the first one. The regular expressions of
    the source are stated as explicit scans over the text. */
module Parser {
  import opened Wrappers
  import opened Text

  const ThoughtLabel: string := "Thought:"
  const ActionLabel: string := "Action:"
  const ObservationLabel: string := "Observation:"

  /** An action string that starts with this token ends the run. */
  const FinishToken: string := "finish"

  datatype ParsedStep = ParsedStep(thought: Option<string>, action: Option<string>)

  /** A tool call: the tool's name and its keyword arguments. */
  datatype Invocation = Invocation(tool: string, args: map<string, string>)

  /** The message of the `ValueError` raised for an action of the wrong shape. */
  function InvalidActionMessage(action: string): string {
    "invalid action format: " + action
  }

  // ---------------------------------------------------------------------------
  // parse_llm_output

  /** The lookahead `(?=\s*<stop>|\s*$)` at position `q`: what follows `q` is
      whitespace and then the stop label, or whitespace only. */
  predicate SegmentStopsAt(s: string, q: nat, stop: string)
    requires q <= |s|
  {
    var j := SkipSpaces(s, q);
    j == |s| || StartsAt(s, j, stop)
  }

  /** The lazy group `(.*?)`: the least position at or after `from` at which the
      lookahead succeeds (the end of the text always qualifies). */
  function SegmentEnd(s: string, from: nat, stop: string): (q: nat)
    requires from <= |s|
    decreases |s| - from
    ensures from <= q <= |s|
    ensures SegmentStopsAt(s, q, stop)
    ensures forall p :: from <= p < q ==> !SegmentStopsAt(s, p, stop)
  {
    if SegmentStopsAt(s, from, stop) then from else SegmentEnd(s, from + 1, stop)
  }

  /** Group 1 of `<label>\s*(.*?)(?=\s*<stop>|\s*$)` is `s[a..q]` when the
      search matches at `i`: `i` is the first occurrence of the label, `a` is
      past the whitespace that follows it, and `q` is the least position from
      `a` on at which the lookahead succeeds. */
  predicate GroupAt(s: string, lbl: string, stop: string, i: nat, a: nat, q: nat) {
    && i + |lbl| <= a <= q <= |s|
    && StartsAt(s, i, lbl)
    && (forall j :: 0 <= j < i ==> !StartsAt(s, j, lbl))
    && AllSpace(s[i + |lbl|..a])
    && (a < |s| ==> !IsSpace(s[a]))
    && SegmentStopsAt(s, q, stop)
    && (forall p :: a <= p < q ==> !SegmentStopsAt(s, p, stop))
  }

  /** Where group 1 of `<label>\s*(.*?)(?=\s*<stop>|\s*$)` lies, as found by
      `re.search` with DOTALL: the search succeeds at the first occurrence of
      the label, the group starts after the whitespace that follows it. */
  function LabelledSpan(s: string, lbl: string, stop: string): (r: Option<(nat, nat)>)
    ensures r.None? <==> !Contains(s, lbl)
    ensures r.Some? ==> r.value.0 <= r.value.1 <= |s|
    ensures r.Some? && r.value.0 < |s| ==> !IsSpace(s[r.value.0])
    ensures r.Some? ==> SegmentStopsAt(s, r.value.1, stop)
    ensures r.Some? ==> forall p :: r.value.0 <= p < r.value.1 ==> !SegmentStopsAt(s, p, stop)
    ensures r.Some? ==> exists i: nat :: GroupAt(s, lbl, stop, i, r.value.0, r.value.1)
  {
    FindFromContains(s, lbl);
    match FindFrom(s, lbl, 0)
    case None => None
    case Some(i) =>
      var a := SkipSpaces(s, i + |lbl|);
      var q := SegmentEnd(s, a, stop);
      assert GroupAt(s, lbl, stop, i, a, q);
      Some((a, q))
  }

  /** The lazy group never ends in whitespace, and it never contains the stop
      label (a label that starts with a non-space character). */
  lemma SpanShape(s: string, lbl: string, stop: string)
    requires LabelledSpan(s, lbl, stop).Some?
    requires |stop| > 0 && !IsSpace(stop[0])
    ensures var (a, q) := LabelledSpan(s, lbl, stop).value;
      IsTrimmed(s[a..q]) && !Contains(s[a..q], stop)
  {
    var (a, q) := LabelledSpan(s, lbl, stop).value;
    if a < q {
      assert !SegmentStopsAt(s, q - 1, stop);
    }
    forall j | 0 <= j <= q - a
      ensures !StartsAt(s[a..q], j, stop)
    {
      StartsAtSlice(s, a, q, j, stop);
      if j < q - a {
        assert !SegmentStopsAt(s, a + j, stop);
      }
    }
  }

  /** One field of `parse_llm_output`: the stripped group, or `None` when the
      label does not occur. */
  function Capture(s: string, lbl: string, stop: string): (r: Option<string>)
    requires |stop| > 0 && !IsSpace(stop[0])
    ensures r.None? <==> !Contains(s, lbl)
    ensures r.Some? ==> IsTrimmed(r.value) && !Contains(r.value, stop) && Contains(s, r.value)
    ensures r.Some? ==> exists i: nat, a: nat, q: nat :: GroupAt(s, lbl, stop, i, a, q) && r.value == s[a..q]
  {
    match LabelledSpan(s, lbl, stop)
    case None => None
    case Some((a, q)) =>
      SpanShape(s, lbl, stop);
      StripTrimmed(s[a..q]);
      assert StartsAt(s, a, s[a..q]);
      Some(Strip(s[a..q]))
  }

  /** `parse_llm_output`: never fails; a field is `None` exactly when its label
      is missing; each field is trimmed and stops before the other label. */
  function ParseLlmOutput(output: string): (r: ParsedStep)
    ensures r.thought.None? <==> !Contains(output, ThoughtLabel)
    ensures r.action.None? <==> !Contains(output, ActionLabel)
    ensures r.thought.Some? ==> IsTrimmed(r.thought.value) && !Contains(r.thought.value, ActionLabel)
    ensures r.action.Some? ==> IsTrimmed(r.action.value) && !Contains(r.action.value, ThoughtLabel)
    ensures r.thought.Some? ==> Contains(output, r.thought.value)
    ensures r.action.Some? ==> Contains(output, r.action.value)
    ensures r.thought.Some? ==> exists i: nat, a: nat, q: nat :: GroupAt(output, ThoughtLabel, ActionLabel, i, a, q) && r.thought.value == output[a..q]
    ensures r.action.Some? ==> exists i: nat, a: nat, q: nat :: GroupAt(output, ActionLabel, ThoughtLabel, i, a, q) && r.action.value == output[a..q]
  {
    ParsedStep(Capture(output, ThoughtLabel, ActionLabel), Capture(output, ActionLabel, ThoughtLabel))
  }

  /** An occurrence of `p` that lies within `s[lo..hi]` is one of the slice. */
  lemma StartsAtWithin(s: string, lo: nat, hi: nat, j: nat, p: string)
    requires lo <= j && j + |p| <= hi <= |s|
    ensures StartsAt(s, j, p) ==> Contains(s[lo..hi], p)
  {
    if StartsAt(s, j, p) {
      StartsAtInSlice(s, lo, hi, j, p);
    }
  }

  /** No occurrence of `p` runs across position `hi` when the character there
      is not one of `p`'s. */
  lemma NoStraddle(s: string, hi: nat, p: string)
    requires hi <= |s|
    requires hi < |s| ==> s[hi] !in p
    ensures forall j: nat :: j <= hi < j + |p| ==> !StartsAt(s, j, p)
  {
    forall j: nat | j <= hi < j + |p|
      ensures !StartsAt(s, j, p)
    {
      StartsAtChars(s, j, p);
      var k := hi - j;
      assert k < |p|;
      assert p[k] in p;
    }
  }

  /** `SegmentEnd` is determined by what it promises. */
  lemma SegmentEndIs(s: string, from: nat, q: nat, stop: string)
    requires from <= q <= |s| && SegmentStopsAt(s, q, stop)
    requires forall p :: from <= p < q ==> !SegmentStopsAt(s, p, stop)
    ensures SegmentEnd(s, from, stop) == q
  {
  }

  /** The lookahead fails everywhere inside a piece `s[lo..hi]` that ends in a
      non-space character and holds no occurrence of the stop label, when no
      occurrence runs across its end either. */
  lemma NoStopInside(s: string, lo: nat, hi: nat, stop: string)
    requires lo < hi <= |s| && !IsSpace(s[hi - 1])
    requires !Contains(s[lo..hi], stop)
    requires forall j: nat :: j <= hi < j + |stop| ==> !StartsAt(s, j, stop)
    ensures forall p :: lo <= p < hi ==> !SegmentStopsAt(s, p, stop)
  {
    forall p | lo <= p < hi
      ensures !SegmentStopsAt(s, p, stop)
    {
      var j := SkipSpaces(s, p);
      assert j < hi;
      if j + |stop| <= hi {
        StartsAtWithin(s, lo, hi, j, stop);
      }
    }
  }

  /** The step format the model is prompted to use. */
  function FormatStep(thought: string, action: string): string {
    ThoughtLabel + " " + thought + "\n" + ActionLabel + " " + action
  }

  /** Where the parts of a formatted step lie. */
  lemma FormatStepLayout(t: string, a: string)
    ensures var s, n := FormatStep(t, a), |t|;
      && |s| == 18 + n + |a| && StartsAt(s, 0, ThoughtLabel) && s[8] == ' '
      && s[9..9 + n] == t && s[9 + n] == '\n' && StartsAt(s, 10 + n, ActionLabel)
      && s[17 + n] == ' ' && s[18 + n..|s|] == a
  {
  }

  /** The thought of a formatted step is its first field. */
  lemma FormattedThought(t: string, a: string)
    requires |t| > 0 && IsTrimmed(t) && !Contains(t, ActionLabel)
    ensures Capture(FormatStep(t, a), ThoughtLabel, ActionLabel) == Some(t)
  {
    var s := FormatStep(t, a);
    var n := |t|;
    FormatStepLayout(t, a);
    assert FindFrom(s, ThoughtLabel, 0) == Some(0);
    assert SkipSpaces(s, 8) == 9 by {
      assert s[9] == t[0];
      SkipSpacesIs(s, 8, 9);
    }
    assert SegmentEnd(s, 9, ActionLabel) == 9 + n by {
      assert s[8 + n] == t[n - 1];
      assert '\n' !in ActionLabel;
      NoStraddle(s, 9 + n, ActionLabel);
      NoStopInside(s, 9, 9 + n, ActionLabel);
      SkipSpacesIs(s, 9 + n, 10 + n);
      SegmentEndIs(s, 9, 9 + n, ActionLabel);
    }
    StripTrimmed(t);
  }

  /** The first `Action:` of a formatted step is the one after the thought. */
  lemma FormattedActionLabel(t: string, a: string)
    requires !Contains(t, ActionLabel)
    ensures FindFrom(FormatStep(t, a), ActionLabel, 0) == Some(10 + |t|)
  {
    var s := FormatStep(t, a);
    var n := |t|;
    FormatStepLayout(t, a);
    assert forall j :: 0 <= j < 10 + n ==> !StartsAt(s, j, ActionLabel) by {
      assert ' ' !in ActionLabel && '\n' !in ActionLabel;
      NoStraddle(s, 8, ActionLabel);
      NoStraddle(s, 9 + n, ActionLabel);
      StartsAtChars(s, 0, ThoughtLabel);
      forall j | 0 <= j < 10 + n
        ensures !StartsAt(s, j, ActionLabel)
      {
        if j < 2 {
          StartsAtChars(s, j, ActionLabel);
          assert s[j] == ThoughtLabel[j];
        } else if 9 <= j && j + 7 <= 9 + n {
          StartsAtWithin(s, 9, 9 + n, j, ActionLabel);
        }
      }
    }
    FindFromIs(s, ActionLabel, 0, 10 + n);
  }

  /** No lookahead for `Thought:` succeeds inside a trimmed action text that
      does not contain the label. */
  lemma FormattedActionEnd(t: string, a: string)
    requires |a| > 0 && IsTrimmed(a) && !Contains(a, ThoughtLabel)
    ensures SegmentEnd(FormatStep(t, a), 18 + |t|, ThoughtLabel) == |FormatStep(t, a)|
  {
    var s := FormatStep(t, a);
    var n := |t|;
    FormatStepLayout(t, a);
    assert s[|s| - 1] == a[|a| - 1];
    NoStraddle(s, |s|, ThoughtLabel);
    NoStopInside(s, 18 + n, |s|, ThoughtLabel);
    SegmentEndIs(s, 18 + n, |s|, ThoughtLabel);
  }

  /** The action of a formatted step is its second field. */
  lemma FormattedAction(t: string, a: string)
    requires !Contains(t, ActionLabel)
    requires |a| > 0 && IsTrimmed(a) && !Contains(a, ThoughtLabel)
    ensures Capture(FormatStep(t, a), ActionLabel, ThoughtLabel) == Some(a)
  {
    var s := FormatStep(t, a);
    var n := |t|;
    FormatStepLayout(t, a);
    FormattedActionLabel(t, a);
    assert SkipSpaces(s, 17 + n) == 18 + n by {
      assert s[18 + n] == a[0];
      SkipSpacesIs(s, 17 + n, 18 + n);
    }
    FormattedActionEnd(t, a);
    assert LabelledSpan(s, ActionLabel, ThoughtLabel) == Some((18 + n, |s|));
    StripTrimmed(a);
  }

  /** Parsing a well-formed step gives back its thought and its action. */
  lemma ParseFormattedStep(t: string, a: string)
    requires |t| > 0 && IsTrimmed(t) && !Contains(t, ActionLabel)
    requires |a| > 0 && IsTrimmed(a) && !Contains(a, ThoughtLabel)
    ensures ParseLlmOutput(FormatStep(t, a)) == ParsedStep(Some(t), Some(a))
  {
    FormattedThought(t, a);
    FormattedAction(t, a);
  }

  // ---------------------------------------------------------------------------
  // parse_action

  /** A non-empty run of word characters. */
  predicate IsWord(s: string) {
    |s| > 0 && forall i :: 0 <= i < |s| ==> IsWordChar(s[i])
  }

  /** `re.match(r"(\w+)\((.*)\)", s)` without DOTALL: the end of the name and
      the index of the closing parenthesis. The name is the whole leading run of
      word characters and must be followed by `(`; the body runs to the last
      `)` before the first line break after it. */
  function CallShape(s: string): (r: Option<(nat, nat)>)
    ensures r.Some? ==> 0 < r.value.0 < r.value.1 < |s|
    ensures r.Some? ==> IsWord(s[..r.value.0]) && s[r.value.0] == '(' && s[r.value.1] == ')'
    ensures r.Some? ==> forall k :: r.value.0 < k < r.value.1 ==> s[k] != '\n'
    ensures r.Some? ==> forall k :: r.value.1 < k < FindChar(s, '\n', r.value.0 + 1) ==> s[k] != ')'
    ensures r.None? <==>
      var k := WordEnd(s, 0);
      k == 0 || k == |s| || s[k] != '(' ||
      forall j :: k < j < FindChar(s, '\n', k + 1) ==> s[j] != ')'
  {
    var k := WordEnd(s, 0);
    if k == 0 || k == |s| || s[k] != '(' then None
    else match LastIndexOf(s, ')', k + 1, FindChar(s, '\n', k + 1))
      case None => None
      case Some(j) => Some((k, j))
  }

  /** One attempt of `(\w+)="([^"]*)"` at position `p`: the key, the value and
      where the match ends. */
  function PairAt(b: string, p: nat): (r: Option<(string, string, nat)>)
    requires p <= |b|
    ensures r.Some? ==> p < r.value.2 <= |b|
    ensures r.Some? ==> IsWord(r.value.0) && '"' !in r.value.1
    ensures r.Some? ==> var pair := FormatPair(r.value.0, r.value.1);
      StartsAt(b, p, pair) && r.value.2 == p + |pair|
  {
    var ke := WordEnd(b, p);
    if ke == p || ke + 1 >= |b| || b[ke] != '=' || b[ke + 1] != '"' then None
    else
      var ve := FindChar(b, '"', ke + 2);
      if ve == |b| then None
      else
        var key, value := b[p..ke], b[ke + 2..ve];
        assert b[ke..ke + 2] == "=\"" && b[ve..ve + 1] == "\"";
        assert b[p..ve + 1] == key + b[ke..ke + 2] + value + b[ve..ve + 1];
        Some((key, value, ve + 1))
  }

  /** `re.findall(r'(\w+)="([^"]*)"', b[p..])`: matches are tried at every
      position, and the next attempt starts where a match ended. */
  function FindAllFrom(b: string, p: nat): (r: seq<(string, string)>)
    requires p <= |b|
    decreases |b| - p
    ensures forall i :: 0 <= i < |r| ==> IsWord(r[i].0) && '"' !in r[i].1
    ensures forall i :: 0 <= i < |r| ==> Contains(b, FormatPair(r[i].0, r[i].1))
  {
    if p == |b| then []
    else match PairAt(b, p)
      case Some((k, v, e)) =>
        assert StartsAt(b, p, FormatPair(k, v));
        [(k, v)] + FindAllFrom(b, e)
      case None => FindAllFrom(b, p + 1)
  }

  /** The value given last for key `k`, if any. */
  function LastValue(pairs: seq<(string, string)>, k: string): (r: Option<string>)
    ensures r.None? <==> forall i :: 0 <= i < |pairs| ==> pairs[i].0 != k
    ensures r.Some? ==> (k, r.value) in pairs
    ensures forall i :: 0 <= i < |pairs| && pairs[i].0 == k && (forall j :: i < j < |pairs| ==> pairs[j].0 != k) ==>
      r == Some(pairs[i].1)
  {
    if |pairs| == 0 then None
    else
      var init := pairs[..|pairs| - 1];
      assert forall i :: 0 <= i < |init| ==> init[i] == pairs[i];
      if pairs[|pairs| - 1].0 == k then Some(pairs[|pairs| - 1].1) else LastValue(init, k)
  }

  /** Filling a dict from pairs in order: the keys are those that occur, and
      the value given last for a key wins. */
  function ToMap(pairs: seq<(string, string)>): (m: map<string, string>)
    ensures forall k :: k in m <==> LastValue(pairs, k).Some?
    ensures forall k :: k in m ==> m[k] == LastValue(pairs, k).value
  {
    if |pairs| == 0 then map[]
    else
      var last := pairs[|pairs| - 1];
      ToMap(pairs[..|pairs| - 1])[last.0 := last.1]
  }

  /** The slice `[7:-1]` of a text that starts with `finish`. */
  lemma FinishSlice(s: string)
    requires |s| >= 6
    ensures PySlice(s, 7, -1) == if |s| >= 8 then s[7..|s| - 1] else []
  {
  }

  /** The keyword arguments of a non-empty call body. */
  function ArgsMap(body: string): (m: map<string, string>)
    ensures forall k :: k in m ==> IsWord(k) && '"' !in m[k]
    ensures forall k :: k in m ==> Contains(body, FormatPair(k, m[k]))
  {
    var pairs := FindAllFrom(body, 0);
    var m := ToMap(pairs);
    assert forall k :: k in m ==> IsWord(k) && '"' !in m[k] && Contains(body, FormatPair(k, m[k])) by {
      forall k | k in m
        ensures IsWord(k) && '"' !in m[k] && Contains(body, FormatPair(k, m[k]))
      {
        var i :| 0 <= i < |pairs| && pairs[i] == (k, m[k]);
      }
    }
    m
  }

  /** `parse_action`. An action that starts with `finish` is not parsed further:
      its answer is the slice `[7:-1]`. Any other action must have the shape
      `name(...)`; its arguments are the `key="value"` matches of the body. */
  function ParseAction(s: string): (r: Result<Invocation, string>)
    ensures IsPrefix(FinishToken, s) ==>
      && r.Ok? && r.value.tool == FinishToken && r.value.args.Keys == {"answer"}
      && r.value.args["answer"] == (if |s| >= 8 then s[7..|s| - 1] else [])
    ensures !IsPrefix(FinishToken, s) ==> (r.Err? <==> CallShape(s).None?)
    ensures r.Err? ==> r.error == InvalidActionMessage(s)
    ensures !IsPrefix(FinishToken, s) && r.Ok? ==>
      && IsWord(r.value.tool) && IsPrefix(r.value.tool + "(", s)
      && forall k :: k in r.value.args ==> IsWord(k) && '"' !in r.value.args[k]
    ensures !IsPrefix(FinishToken, s) && r.Ok? ==>
      var (c, j) := CallShape(s).value;
      && r.value.tool == s[..c]
      && (j == c + 1 ==> r.value.args == map[])
      && forall k :: k in r.value.args ==> Contains(s[c + 1..j], FormatPair(k, r.value.args[k]))
  {
    if IsPrefix(FinishToken, s) then
      FinishSlice(s);
      Ok(Invocation(FinishToken, map["answer" := PySlice(s, 7, -1)]))
    else
      match CallShape(s)
      case None => Err(InvalidActionMessage(s))
      case Some((k, j)) =>
        var body := s[k + 1..j];
        assert s[..k + 1] == s[..k] + "(";
        Ok(Invocation(s[..k], if |body| == 0 then map[] else ArgsMap(body)))
  }

  /** `key="value"` */
  function FormatPair(key: string, value: string): string {
    key + "=\"" + value + "\""
  }

  /** Arguments written the way the model is prompted to write them. */
  function FormatArgs(pairs: seq<(string, string)>): string {
    if |pairs| == 0 then ""
    else if |pairs| == 1 then FormatPair(pairs[0].0, pairs[0].1)
    else FormatPair(pairs[0].0, pairs[0].1) + ", " + FormatArgs(pairs[1..])
  }

  /** Keys are words; values hold neither a quote nor a line break. */
  predicate WellFormedArgs(pairs: seq<(string, string)>) {
    forall i :: 0 <= i < |pairs| ==> IsWord(pairs[i].0) && '"' !in pairs[i].1 && '\n' !in pairs[i].1
  }

  /** Where the parts of a written pair lie. */
  lemma PairParts(b: string, p: nat, key: string, value: string)
    requires StartsAt(b, p, FormatPair(key, value))
    ensures var ke, ve := p + |key|, p + |key| + 2 + |value|;
      && ve < |b| && StartsAt(b, p, key) && StartsAt(b, ke + 2, value)
      && b[ke] == '=' && b[ke + 1] == '"' && b[ve] == '"'
  {
    var ke := p + |key|;
    var ve := ke + 2 + |value|;
    StartsAtSplit(b, p, key + "=\"" + value, "\"");
    StartsAtSplit(b, p, key + "=\"", value);
    StartsAtSplit(b, p, key, "=\"");
    StartsAtChars(b, ke, "=\"");
    StartsAtChars(b, ve, "\"");
  }

  /** One attempt of the argument pattern at a key, `="`, a value without
      quotes and a closing quote matches exactly that pair. */
  lemma PairAtParts(b: string, p: nat, key: string, value: string)
    requires IsWord(key) && '"' !in value
    requires var ke, ve := p + |key|, p + |key| + 2 + |value|;
      && ve < |b| && StartsAt(b, p, key) && StartsAt(b, ke + 2, value)
      && b[ke] == '=' && b[ke + 1] == '"' && b[ve] == '"'
    ensures PairAt(b, p) == Some((key, value, p + |key| + |value| + 3))
  {
    var ke := p + |key|;
    var ve := ke + 2 + |value|;
    assert WordEnd(b, p) == ke by {
      StartsAtChars(b, p, key);
      WordEndIs(b, p, ke);
    }
    assert FindChar(b, '"', ke + 2) == ve by {
      StartsAtChars(b, ke + 2, value);
      FindCharIs(b, '"', ke + 2, ve);
    }
  }

  /** A written pair is matched by one attempt of the argument pattern. */
  lemma PairAtFormatted(b: string, p: nat, key: string, value: string)
    requires IsWord(key) && '"' !in value
    requires StartsAt(b, p, FormatPair(key, value))
    ensures PairAt(b, p) == Some((key, value, p + |key| + |value| + 3))
  {
    PairParts(b, p, key, value);
    PairAtParts(b, p, key, value);
  }

  lemma WellFormedTail(pairs: seq<(string, string)>)
    requires |pairs| > 0 && WellFormedArgs(pairs)
    ensures WellFormedArgs(pairs[1..])
  {
    forall i | 0 <= i < |pairs[1..]|
      ensures IsWord(pairs[1..][i].0) && '"' !in pairs[1..][i].1 && '\n' !in pairs[1..][i].1
    {
      assert pairs[1..][i] == pairs[i + 1];
    }
  }

  /** A match found at `p` is followed by a search from where it ended. */
  lemma FindAllAfterMatch(b: string, p: nat, key: string, value: string, e: nat)
    requires p < |b| && PairAt(b, p) == Some((key, value, e))
    ensures FindAllFrom(b, p) == [(key, value)] + FindAllFrom(b, e)
  {
  }

  /** The separator `, ` between two arguments matches nothing. */
  lemma FindAllSkipsSeparator(b: string, e: nat)
    requires e + 2 <= |b| && b[e] == ',' && b[e + 1] == ' '
    ensures FindAllFrom(b, e) == FindAllFrom(b, e + 2)
  {
    WordEndIs(b, e, e);
    WordEndIs(b, e + 1, e + 1);
  }

  /** A match followed by the separator `, `: the search goes on after the
      separator. */
  lemma FindAllFirstArg(b: string, p: nat, key: string, value: string, e: nat, q: nat)
    requires p < |b| && PairAt(b, p) == Some((key, value, e))
    requires e + 2 <= |b| && b[e] == ',' && b[e + 1] == ' ' && q == e + 2
    ensures FindAllFrom(b, p) == [(key, value)] + FindAllFrom(b, q)
  {
    FindAllAfterMatch(b, p, key, value, e);
    FindAllSkipsSeparator(b, e);
  }

  /** A written pair followed by `, ` is matched, then the search goes on
      after the separator. */
  lemma FindAllWrittenArg(b: string, p: nat, key: string, value: string, q: nat)
    requires IsWord(key) && '"' !in value
    requires StartsAt(b, p, FormatPair(key, value) + ", ") && q == p + |FormatPair(key, value)| + 2
    ensures FindAllFrom(b, p) == [(key, value)] + FindAllFrom(b, q)
  {
    var e := WrittenArgEnd(b, p, key, value);
    FindAllFirstArg(b, p, key, value, e, q);
  }

  /** A written pair followed by `, ` is matched, and the separator follows
      the match. */
  lemma WrittenArgEnd(b: string, p: nat, key: string, value: string) returns (e: nat)
    requires IsWord(key) && '"' !in value
    requires StartsAt(b, p, FormatPair(key, value) + ", ")
    ensures e == p + |FormatPair(key, value)|
    ensures p < |b| && PairAt(b, p) == Some((key, value, e))
    ensures e + 2 <= |b| && b[e] == ',' && b[e + 1] == ' '
  {
    e := p + |FormatPair(key, value)|;
    StartsAtSplit(b, p, FormatPair(key, value), ", ");
    StartsAtChars(b, e, ", ");
    PairAtFormatted(b, p, key, value);
  }

  /** `findall` recovers exactly the pairs of well-formed arguments written at
      the end of a text, in order. */
  lemma {:induction false} FindAllFormatted(b: string, p: nat, pairs: seq<(string, string)>)
    requires WellFormedArgs(pairs)
    requires StartsAt(b, p, FormatArgs(pairs)) && p + |FormatArgs(pairs)| == |b|
    ensures FindAllFrom(b, p) == pairs
    decreases |pairs|
  {
    if |pairs| == 1 {
      var (k, v) := pairs[0];
      assert FindAllFrom(b, p) == [(k, v)] + FindAllFrom(b, |b|) by {
        PairAtFormatted(b, p, k, v);
        FindAllAfterMatch(b, p, k, v, |b|);
      }
    } else if |pairs| > 1 {
      var (k, v) := pairs[0];
      var rest := FormatArgs(pairs[1..]);
      var q := p + |FormatPair(k, v)| + 2;
      FindAllWrittenHead(b, p, k, v, rest, q);
      WellFormedTail(pairs);
      FindAllFormatted(b, q, pairs[1..]);
      assert pairs == [pairs[0]] + pairs[1..];
    }
  }

  /** A written pair, `, ` and more text: the pair is matched, and the rest
      is written from where the search goes on. */
  lemma FindAllWrittenHead(b: string, p: nat, key: string, value: string, rest: string, q: nat)
    requires IsWord(key) && '"' !in value
    requires StartsAt(b, p, FormatPair(key, value) + ", " + rest) && q == p + |FormatPair(key, value)| + 2
    ensures StartsAt(b, q, rest)
    ensures FindAllFrom(b, p) == [(key, value)] + FindAllFrom(b, q)
  {
    StartsAtSplit(b, p, FormatPair(key, value) + ", ", rest);
    FindAllWrittenArg(b, p, key, value, q);
  }

  lemma {:induction false} FormatArgsShape(pairs: seq<(string, string)>)
    requires WellFormedArgs(pairs)
    ensures '\n' !in FormatArgs(pairs)
    ensures |FormatArgs(pairs)| == 0 <==> |pairs| == 0
    decreases |pairs|
  {
    if |pairs| > 1 {
      WellFormedTail(pairs);
      FormatArgsShape(pairs[1..]);
    }
    if |pairs| > 0 {
      var k := pairs[0].0;
      assert forall i :: 0 <= i < |k| ==> k[i] != '\n';
    }
  }

  /** A call written with a name that does not start with `finish` does not
      start with it either. */
  lemma CallNotFinish(name: string, rest: string)
    requires IsWord(name) && !IsPrefix(FinishToken, name)
    ensures !IsPrefix(FinishToken, name + "(" + rest)
  {
    var s := name + "(" + rest;
    var n := |name|;
    if n < 6 && |s| >= 6 {
      assert s[..6][n] == s[n] == '(';
      assert IsWordChar(FinishToken[n]);
    } else if n >= 6 {
      assert s[..6] == name[..6];
    }
  }

  /** The shape of a call written as `name(body)` with a one-line body. */
  lemma {:induction false} CallShapeFormatted(name: string, body: string)
    requires IsWord(name) && '\n' !in body
    ensures CallShape(name + "(" + body + ")") == Some((|name|, |name| + |body| + 1))
  {
    var s := name + "(" + body + ")";
    var n := |name|;
    assert s[..n] == name;
    assert s[n] == '(';
    WordEndIs(s, 0, n);
    assert forall k :: n < k < |s| - 1 ==> s[k] == body[k - n - 1];
    FindCharIs(s, '\n', n + 1, |s|);
  }

  /** A call written as `name(key="value", ...)` parses back to its name and
      its arguments, whenever the name does not start with `finish`. */
  lemma ParseActionRoundTrip(name: string, pairs: seq<(string, string)>)
    requires IsWord(name) && !IsPrefix(FinishToken, name)
    requires WellFormedArgs(pairs)
    ensures ParseAction(name + "(" + FormatArgs(pairs) + ")") == Ok(Invocation(name, ToMap(pairs)))
  {
    var body := FormatArgs(pairs);
    var s := name + "(" + body + ")";
    var n := |name|;
    CallNotFinish(name, body + ")");
    assert s == name + "(" + (body + ")");
    FormatArgsShape(pairs);
    CallShapeFormatted(name, body);
    assert s[..n] == name;
    assert s[n + 1..|s| - 1] == body;
    if |body| > 0 {
      assert StartsAt(body, 0, body);
      FindAllFormatted(body, 0, pairs);
    }
  }

  // ---------------------------------------------------------------------------
  // truncate_multiple_actions

  /** The lookahead `(?=\n\s*(?:Thought:|Action:|Observation:)|\Z)` at `q`. */
  predicate BlockEndsAt(s: string, q: nat)
    requires q <= |s|
  {
    || q == |s|
    || (s[q] == '\n' &&
        var j := SkipSpaces(s, q + 1);
        StartsAt(s, j, ThoughtLabel) || StartsAt(s, j, ActionLabel) || StartsAt(s, j, ObservationLabel))
  }

  /** The lazy `.*?` that ends the block: the least position at or after `from`
      where the lookahead succeeds. */
  function BlockEnd(s: string, from: nat): (q: nat)
    requires from <= |s|
    decreases |s| - from
    ensures from <= q <= |s|
    ensures BlockEndsAt(s, q)
    ensures forall p :: from <= p < q ==> !BlockEndsAt(s, p)
  {
    if BlockEndsAt(s, from) then from else BlockEnd(s, from + 1)
  }

  /** Where `(Thought:.*?Action:.*?)(?=...)` matches under `re.search` with
      DOTALL: the first `Thought:`, the first `Action:` after it, and the end of
      the block that follows. */
  function FirstBlock(s: string): (r: Option<(nat, nat, nat)>)
    ensures r.Some? ==>
      var (t, a, q) := r.value;
      && t + |ThoughtLabel| <= a && a + |ActionLabel| <= q <= |s|
      && StartsAt(s, t, ThoughtLabel) && StartsAt(s, a, ActionLabel) && BlockEndsAt(s, q)
      && (forall j :: 0 <= j < t ==> !StartsAt(s, j, ThoughtLabel))
      && (forall j :: t + |ThoughtLabel| <= j < a ==> !StartsAt(s, j, ActionLabel))
      && (forall p :: a + |ActionLabel| <= p < q ==> !BlockEndsAt(s, p))
  {
    match FindFrom(s, ThoughtLabel, 0)
    case None => None
    case Some(t) =>
      match FindFrom(s, ActionLabel, t + |ThoughtLabel|)
      case None => None
      case Some(a) => Some((t, a, BlockEnd(s, a + |ActionLabel|)))
  }

  /** The block pattern fails exactly when no `Thought:` is followed by an
      `Action:`. */
  lemma NoBlockIff(s: string)
    ensures FirstBlock(s).None? <==> forall t: nat, a: nat ::
      t + |ThoughtLabel| <= a ==> !(StartsAt(s, t, ThoughtLabel) && StartsAt(s, a, ActionLabel))
  {
  }

  /** `FirstBlock` is determined by what it promises. */
  lemma FirstBlockIs(s: string, t: nat, a: nat, q: nat)
    requires t + |ThoughtLabel| <= a && a + |ActionLabel| <= q <= |s|
    requires StartsAt(s, t, ThoughtLabel) && StartsAt(s, a, ActionLabel) && BlockEndsAt(s, q)
    requires forall j :: 0 <= j < t ==> !StartsAt(s, j, ThoughtLabel)
    requires forall j :: t + |ThoughtLabel| <= j < a ==> !StartsAt(s, j, ActionLabel)
    requires forall p :: a + |ActionLabel| <= p < q ==> !BlockEndsAt(s, p)
    ensures FirstBlock(s) == Some((t, a, q))
  {
    FindFromIs(s, ThoughtLabel, 0, t);
    FindFromIs(s, ActionLabel, t + |ThoughtLabel|, a);
    FirstBlockOf(s, t, a);
    assert FirstBlock(s) == Some((t, a, q)) by {
      var q' := FirstBlock(s).value.2;
      assert !(q' < q) && !(q < q');
    }
  }

  /** The labels `FirstBlock` reports are the results of its two searches. */
  lemma FirstBlockOf(s: string, t: nat, a: nat)
    requires t + |ThoughtLabel| <= |s|
    requires FindFrom(s, ThoughtLabel, 0) == Some(t)
    requires FindFrom(s, ActionLabel, t + |ThoughtLabel|) == Some(a)
    ensures FirstBlock(s).Some? && FirstBlock(s).value.0 == t && FirstBlock(s).value.1 == a
  {
  }

  /** Stripping a piece of text that runs from a `Thought:` to at least the end
      of a later `Action:` keeps both labels. */
  lemma StripBlock(s: string, t: nat, a: nat, q: nat) returns (r: string, k: nat)
    requires StartsAt(s, t, ThoughtLabel) && StartsAt(s, a, ActionLabel)
    requires t + |ThoughtLabel| <= a && a + |ActionLabel| <= q <= |s|
    ensures r == Strip(s[t..q]) && k == a - t
    ensures a + |ActionLabel| <= t + |r| <= q
    ensures r == s[t..t + |r|]
    ensures StartsAt(r, 0, ThoughtLabel) && StartsAt(r, k, ActionLabel)
  {
    assert !IsSpace(s[t]) && !IsSpace(s[a + 6]) by {
      StartsAtChars(s, t, ThoughtLabel);
      StartsAtChars(s, a, ActionLabel);
    }
    r := StripPiece(s, t, q, a + 7);
    k := a - t;
    LabelsInPiece(s, t, a, k, r);
  }

  /** A piece of `s` from `t` that reaches past both labels holds them at the
      same places. */
  lemma LabelsInPiece(s: string, t: nat, a: nat, k: nat, r: string)
    requires StartsAt(s, t, ThoughtLabel) && StartsAt(s, a, ActionLabel)
    requires t + |ThoughtLabel| <= a && a + |ActionLabel| <= t + |r| <= |s|
    requires r == s[t..t + |r|] && k == a - t
    ensures StartsAt(r, 0, ThoughtLabel) && StartsAt(r, k, ActionLabel)
  {
    StartsAtInPiece(s, t, r, t, ThoughtLabel);
    StartsAtInPiece(s, t, r, a, ActionLabel);
  }

  /** `truncate_multiple_actions`: the stripped first block when it differs
      from the stripped input, else the input unchanged. */
  function TruncateMultipleActions(s: string): (r: string)
    ensures r == s || (
      && IsTrimmed(r) && Contains(s, r) && r != Strip(s)
      && IsPrefix(ThoughtLabel, r) && Contains(r, ActionLabel))
    ensures r != s <==> FirstBlock(s).Some? && Strip(s[FirstBlock(s).value.0..FirstBlock(s).value.2]) != Strip(s)
    ensures r != s ==> r == Strip(s[FirstBlock(s).value.0..FirstBlock(s).value.2])
  {
    match FirstBlock(s)
    case None => s
    case Some((t, a, q)) =>
      var block := Strip(s[t..q]);
      if block != Strip(s) then
        BlockCut(s, t, a, q);
        block
      else s
  }

  /** A first block whose stripped text differs from the stripped response is
      a proper, trimmed piece of it that starts with `Thought:` and holds an
      `Action:` label. */
  lemma BlockCut(s: string, t: nat, a: nat, q: nat)
    requires StartsAt(s, t, ThoughtLabel) && StartsAt(s, a, ActionLabel)
    requires t + |ThoughtLabel| <= a && a + |ActionLabel| <= q <= |s|
    requires Strip(s[t..q]) != Strip(s)
    ensures var r := Strip(s[t..q]);
      && r != s && IsTrimmed(r) && Contains(s, r)
      && IsPrefix(ThoughtLabel, r) && Contains(r, ActionLabel)
  {
    var r, k := StripBlock(s, t, a, q);
    CutPiece(s, t, k, r);
  }

  /** A trimmed piece of `s` that differs from the stripped `s`, starts with
      `Thought:` and holds `Action:` at `a`. */
  lemma CutPiece(s: string, t: nat, a: nat, r: string)
    requires t + |r| <= |s| && r == s[t..t + |r|]
    requires IsTrimmed(r) && r != Strip(s)
    requires StartsAt(r, 0, ThoughtLabel) && a + |ActionLabel| <= |r| && StartsAt(r, a, ActionLabel)
    ensures r != s && Contains(s, r) && IsPrefix(ThoughtLabel, r) && Contains(r, ActionLabel)
  {
    StripTrimmed(r);
    assert StartsAt(s, t, r);
  }

  /** A boundary inside a slice is a boundary of the whole text. */
  lemma BlockEndsAtSlice(s: string, lo: nat, hi: nat, p: nat)
    requires lo <= hi <= |s| && p < hi - lo
    ensures BlockEndsAt(s[lo..hi], p) ==> BlockEndsAt(s, lo + p)
  {
    var x := s[lo..hi];
    if BlockEndsAt(x, p) {
      var j := SkipSpaces(x, p + 1);
      assert j < |x| && !IsSpace(x[j]);
      SkipSpacesIs(s, lo + p + 1, lo + j);
      StartsAtSlice(s, lo, hi, j, ThoughtLabel);
      StartsAtSlice(s, lo, hi, j, ActionLabel);
      StartsAtSlice(s, lo, hi, j, ObservationLabel);
    }
  }

  /** A prefix of `s` from `t` keeps the first-ness of an `Action:` label and
      the absence of boundaries. */
  lemma PieceKeepsBlock(s: string, t: nat, a: nat, q: nat, r: string)
    requires t + |ThoughtLabel| <= a && a + |ActionLabel| <= t + |r| <= q <= |s|
    requires r == s[t..t + |r|]
    requires forall j :: t + |ThoughtLabel| <= j < a ==> !StartsAt(s, j, ActionLabel)
    requires forall p :: a + |ActionLabel| <= p < q ==> !BlockEndsAt(s, p)
    ensures forall j :: |ThoughtLabel| <= j < a - t ==> !StartsAt(r, j, ActionLabel)
    ensures forall p :: a - t + |ActionLabel| <= p < |r| ==> !BlockEndsAt(r, p)
  {
    forall j | 8 <= j < a - t
      ensures !StartsAt(r, j, ActionLabel)
    {
      StartsAtSlice(s, t, t + |r|, j, ActionLabel);
    }
    forall p | a - t + 7 <= p < |r|
      ensures !BlockEndsAt(r, p)
    {
      BlockEndsAtSlice(s, t, t + |r|, p);
    }
  }

  /** A block that was cut out holds no further boundary after its action:
      truncating it again finds the whole of it. */
  lemma TruncatedBlockIsWhole(s: string, t: nat, a: nat, q: nat)
    requires FirstBlock(s) == Some((t, a, q))
    ensures FirstBlock(Strip(s[t..q])) == Some((0, a - t, |Strip(s[t..q])|))
  {
    BlockPieceIsWhole(s, t, a, q);
  }

  /** The stripped piece of a block from its `Thought:` to its end is itself a
      single block. */
  lemma BlockPieceIsWhole(s: string, t: nat, a: nat, q: nat)
    requires t + |ThoughtLabel| <= a && a + |ActionLabel| <= q <= |s|
    requires StartsAt(s, t, ThoughtLabel) && StartsAt(s, a, ActionLabel)
    requires forall j :: t + |ThoughtLabel| <= j < a ==> !StartsAt(s, j, ActionLabel)
    requires forall p :: a + |ActionLabel| <= p < q ==> !BlockEndsAt(s, p)
    ensures FirstBlock(Strip(s[t..q])) == Some((0, a - t, |Strip(s[t..q])|))
  {
    var r, k := StripBlock(s, t, a, q);
    PieceKeepsBlock(s, t, a, q, r);
    FirstBlockIs(r, 0, k, |r|);
    assert FirstBlock(r) == Some((0, k, |r|));
  }

  /** `truncate_multiple_actions` is idempotent. */
  lemma TruncateIdempotent(s: string)
    ensures TruncateMultipleActions(TruncateMultipleActions(s)) == TruncateMultipleActions(s)
  {
    var r := TruncateMultipleActions(s);
    if r != s {
      var (t, a, q) := FirstBlock(s).value;
      TruncatedBlockIsWhole(s, t, a, q);
      assert r[0..|r|] == r;
      StripTrimmed(r);
    }
  }

  /** A response whose first block is `Thought:`, text without colons,
      `Action:`, one line of text without colons, then a line break and a
      second `Thought:`. */
  lemma TwoStepBlockIs(s: string, a: nat, e: nat)
    requires 8 <= a && a + 7 <= e && e + 9 <= |s|
    requires StartsAt(s, 0, ThoughtLabel) && StartsAt(s, a, ActionLabel)
    requires forall k :: 8 <= k < a ==> s[k] != ':'
    requires forall k :: a + 7 <= k < e ==> s[k] != '\n'
    requires s[e] == '\n' && StartsAt(s, e + 1, ThoughtLabel)
    ensures FirstBlock(s) == Some((0, a, e))
  {
    assert forall k :: 8 <= k < a + 6 ==> s[k] != ':' by {
      StartsAtChars(s, a, ActionLabel);
      assert forall m :: 0 <= m < 6 ==> ActionLabel[m] != ':';
      forall k | a <= k < a + 6
        ensures s[k] != ':'
      {
        assert s[k] == ActionLabel[k - a];
      }
    }
    forall j | 8 <= j < a
      ensures !StartsAt(s, j, ActionLabel)
    {
      StartsAtChars(s, j, ActionLabel);
      assert ActionLabel[6] == ':';
    }
    assert BlockEndsAt(s, e) by {
      StartsAtChars(s, e + 1, ThoughtLabel);
      SkipSpacesIs(s, e + 1, e + 1);
    }
    FirstBlockIs(s, 0, a, e);
  }

  /** Two steps in one response: the first block ends at the line break
      before the second `Thought:`. */
  lemma TwoStepBlock(x: string, y: string, rest: string)
    requires ':' !in x && ':' !in y && '\n' !in y
    requires IsPrefix(ThoughtLabel, rest)
    ensures var block := ThoughtLabel + x + ActionLabel + y;
      FirstBlock(block + "\n" + rest) == Some((0, 8 + |x|, |block|))
  {
    var block := ThoughtLabel + x + ActionLabel + y;
    var s := block + "\n" + rest;
    var a := 8 + |x|;
    var e := |block|;
    assert StartsAt(s, 0, ThoughtLabel) by {
      assert s[..8] == ThoughtLabel;
    }
    assert StartsAt(s, a, ActionLabel) by {
      assert s[a..a + 7] == ActionLabel;
    }
    assert forall k :: 8 <= k < a ==> s[k] != ':' by {
      assert forall k :: 8 <= k < a ==> s[k] == x[k - 8];
    }
    assert forall k :: a + 7 <= k < e ==> s[k] != '\n' by {
      assert forall k :: a + 7 <= k < e ==> s[k] == y[k - a - 7];
    }
    assert s[e] == '\n' && StartsAt(s, e + 1, ThoughtLabel) by {
      assert s[e + 1..e + 9] == rest[..8];
    }
    TwoStepBlockIs(s, a, e);
  }

  /** When the first block ends before the last non-space character of the
      response, truncation returns the stripped block. */
  lemma TruncateAtBlock(s: string, t: nat, a: nat, e: nat, m: nat)
    requires FirstBlock(s) == Some((t, a, e))
    requires e < m < |s| && !IsSpace(s[m])
    ensures TruncateMultipleActions(s) == Strip(s[t..e])
  {
    StartsAtNonSpace(s, t, ThoughtLabel);
    StripCovers(s, t, m);
    assert |Strip(s[t..e])| <= e - t < |Strip(s)|;
  }

  /** With two steps in one response, only the first is kept. */
  lemma TruncateKeepsFirstStep(x: string, y: string, rest: string)
    requires ':' !in x && ':' !in y && '\n' !in y
    requires IsPrefix(ThoughtLabel, rest)
    ensures TruncateMultipleActions(ThoughtLabel + x + ActionLabel + y + "\n" + rest)
         == Strip(ThoughtLabel + x + ActionLabel + y)
  {
    var block := ThoughtLabel + x + ActionLabel + y;
    var s := block + "\n" + rest;
    var e := |block|;
    assert s[0..e] == block && s[e + 1] == rest[0];
    assert !IsSpace(s[e + 1]) by {
      assert rest[0] == ThoughtLabel[0];
    }
    assert TruncateMultipleActions(s) == Strip(s[0..e]) by {
      TwoStepBlock(x, y, rest);
      TruncateAtBlock(s, 0, 8 + |x|, e, e + 1);
    }
  }
}
