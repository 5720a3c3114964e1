/**
 * The cyber assistant's answer: the online model's reply when there is a
 * usable one, otherwise a rule-based offline answer assembled from fixed
 * sections chosen by keywords in the question. The HTTP call itself is
 * outside the model: its result is passed in as `onlineAnswer`, `None`
 * when no API key is configured.
 */
module Assistant {
  import opened Wrappers
  import opened PyStr

  /** The opening words of the offline answer. */
  const OfflineTitle := "Offline assistant mode"

  /** The prefix of the online helper's error replies. */
  const ErrorPrefix := "Error calling OpenRouter API"

  /** The parts the offline answer can be made of. */
  datatype Section = Intro | Summary(context: string) | Priority | Phishing | Backlog | General | Deployment

  /** The text of each part, as the answer shows it. */
  function Text(sec: Section): string {
    match sec
    case Intro => OfflineTitle
      + " (no usable AI API call succeeded).\nBelow is a rule-based analysis based on your incident data."
    case Summary(context) => "\nIncident summary:\n" + context
    case Priority => "\nPrioritisation advice:\n"
      + "- Resolve **High severity** incidents that are still **Open** first.\n"
      + "- Next, clear Medium severity incidents that have been open for a long time.\n"
      + "- Low severity incidents can be grouped and handled in batches."
    case Phishing => "\nPhishing guidance:\n"
      + "- Check if a large share of incidents are phishing emails.\n"
      + "- If yes, recommend short staff training and stronger email filtering rules.\n"
      + "- Monitor how phishing incidents change after these actions."
    case Backlog => "\nBacklog / bottleneck analysis:\n"
      + "- A high count of *Open* incidents suggests insufficient capacity.\n"
      + "- Many incidents stuck in *In Progress* may indicate process bottlenecks.\n"
      + "- Compare incident counts per assignee to detect imbalances."
    case General => "\nGeneral guidance:\n"
      + "- Use the filters and charts above to inspect which incident types, severities, "
      + "and assignees dominate, then adjust playbooks accordingly."
    case Deployment =>
      "\nIn a full deployment, this panel sends the same question and context to "
      + "the `openai/gpt-oss-20b:free` model via the OpenRouter API."
  }

  function Texts(secs: seq<Section>): (r: seq<string>)
    ensures |r| == |secs|
  {
    seq(|secs|, i requires 0 <= i < |secs| => Text(secs[i]))
  }

  /** `if context_text:` -- present and non-empty. */
  predicate HasContext(contextText: Option<string>) {
    contextText.Some? && contextText.value != ""
  }

  predicate AsksPriority(msg: string) {
    Contains(Lower(msg), "priorit") || Contains(Lower(msg), "first")
  }

  predicate AsksPhishing(msg: string) {
    Contains(Lower(msg), "phishing")
  }

  predicate AsksBacklog(msg: string) {
    Contains(Lower(msg), "backlog") || Contains(Lower(msg), "bottleneck")
  }

  /** `secs` with `sec` appended when `cond` holds. */
  function AddIf(secs: seq<Section>, cond: bool, sec: Section): seq<Section> {
    if cond then secs + [sec] else secs
  }

  /** The parts of the offline answer, in order: the introduction; the
      incident summary when there is context; the advice for each topic
      asked about; general guidance when nothing was added after the
      introduction; and the deployment note. */
  function Layout(summary: Option<string>, priority: bool, phishing: bool, backlog: bool): seq<Section> {
    var opening := if summary.Some? then [Intro, Summary(summary.value)] else [Intro];
    var topical := AddIf(AddIf(AddIf(opening, priority, Priority), phishing, Phishing), backlog, Backlog);
    AddIf(topical, |topical| == 1, General) + [Deployment]
  }

  /** The parts for a question and an optional context. */
  function Sections(userMessage: string, contextText: Option<string>): seq<Section> {
    Layout(if HasContext(contextText) then contextText else None,
      AsksPriority(userMessage), AsksPhishing(userMessage), AsksBacklog(userMessage))
  }

  /** The offline answer for a question and an optional context. */
  function OfflineAnswer(userMessage: string, contextText: Option<string>): string {
    Join(Texts(Sections(userMessage, contextText)), "\n")
  }

  /** `_offline_response`: appends the parts one by one and joins their
      texts with line breaks. Each part is kept as the section it is and
      turned into text at the join. */
  method OfflineResponse(userMessage: string, contextText: Option<string>) returns (r: string)
    ensures r == OfflineAnswer(userMessage, contextText)
  {
    ghost var summary := if HasContext(contextText) then contextText else None;
    var parts: seq<Section> := [Intro];
    if contextText.Some? && contextText.value != "" {
      parts := parts + [Summary(contextText.value)];
    }
    ghost var opening := parts;
    assert opening == if summary.Some? then [Intro, Summary(summary.value)] else [Intro];
    var msg := Lower(userMessage);
    if Contains(msg, "priorit") || Contains(msg, "first") {
      parts := parts + [Priority];
    }
    ghost var a := parts;
    assert a == AddIf(opening, AsksPriority(userMessage), Priority);
    if Contains(msg, "phishing") {
      parts := parts + [Phishing];
    }
    ghost var b := parts;
    assert b == AddIf(a, AsksPhishing(userMessage), Phishing);
    if Contains(msg, "backlog") || Contains(msg, "bottleneck") {
      parts := parts + [Backlog];
    }
    assert parts == AddIf(b, AsksBacklog(userMessage), Backlog);
    if |parts| == 1 {
      parts := parts + [General];
    }
    parts := parts + [Deployment];
    r := Join(Texts(parts), "\n");
  }

  /** The online answer is replaced when there is none or it reports an
      error from the API call. */
  predicate FallsBack(onlineAnswer: Option<string>) {
    onlineAnswer.None? || StartsWith(onlineAnswer.value, ErrorPrefix)
  }

  /** `ask_cyber_assistant`: the online answer unchanged when it is usable,
      the offline answer otherwise; either way the caller never sees an API
      error message. */
  method AskCyberAssistant(userMessage: string, contextText: Option<string>, onlineAnswer: Option<string>)
    returns (r: string)
    ensures FallsBack(onlineAnswer) ==> r == OfflineAnswer(userMessage, contextText)
    ensures !FallsBack(onlineAnswer) ==> r == onlineAnswer.value
    ensures !StartsWith(r, ErrorPrefix)
  {
    if onlineAnswer.None? || StartsWith(onlineAnswer.value, ErrorPrefix) {
      r := OfflineResponse(userMessage, contextText);
      OfflineAnswerFraming(userMessage, contextText);
      assert r[0] != ErrorPrefix[0] by {
        assert r[..|Text(Intro)|] == Text(Intro);
        assert Text(Intro)[0] == OfflineTitle[0];
      }
    } else {
      r := onlineAnswer.value;
    }
  }

  // -------------------------------------------------------------------
  // Properties
  // -------------------------------------------------------------------

  lemma {:induction false} JoinStartsWithFirst(parts: seq<string>, sep: string)
    requires |parts| >= 1
    ensures StartsWith(Join(parts, sep), parts[0])
  {
    if |parts| > 1 {
      assert Join(parts, sep) == parts[0] + (sep + Join(parts[1..], sep));
    }
  }

  lemma {:induction false} JoinEndsWithLast(parts: seq<string>, sep: string)
    requires |parts| >= 1
    ensures EndsWith(Join(parts, sep), parts[|parts| - 1])
  {
    if |parts| > 1 {
      JoinEndsWithLast(parts[1..], sep);
      var tail := Join(parts[1..], sep);
      assert Join(parts, sep) == (parts[0] + sep) + tail;
      assert parts[1..][|parts[1..]| - 1] == parts[|parts| - 1];
    }
  }

  /** The offline answer always opens with the introduction and closes with
      the deployment note. */
  lemma OfflineAnswerFraming(userMessage: string, contextText: Option<string>)
    ensures StartsWith(OfflineAnswer(userMessage, contextText), Text(Intro))
    ensures EndsWith(OfflineAnswer(userMessage, contextText), Text(Deployment))
  {
    var parts := Texts(Sections(userMessage, contextText));
    JoinStartsWithFirst(parts, "\n");
    JoinEndsWithLast(parts, "\n");
  }

  /** Which parts a layout holds, each exactly under the condition that
      adds it; general guidance only when nothing else was added. */
  lemma LayoutPresence(summary: Option<string>, priority: bool, phishing: bool, backlog: bool)
    ensures var secs := Layout(summary, priority, phishing, backlog);
      && secs[0] == Intro && secs[|secs| - 1] == Deployment
      && (summary.Some? <==> exists c :: Summary(c) in secs)
      && (summary.Some? ==> secs[1] == Summary(summary.value))
      && (Priority in secs <==> priority)
      && (Phishing in secs <==> phishing)
      && (Backlog in secs <==> backlog)
      && (General in secs <==> summary.None? && !priority && !phishing && !backlog)
  {
    var secs := Layout(summary, priority, phishing, backlog);
    if summary.Some? {
      assert Summary(summary.value) in secs;
    }
  }

  /** The position of each part in the fixed order of the answer. */
  function Rank(sec: Section): nat {
    match sec
    case Intro => 0
    case Summary(_) => 1
    case Priority => 2
    case Phishing => 3
    case Backlog => 4
    case General => 5
    case Deployment => 6
  }

  predicate Ascending(secs: seq<Section>) {
    forall i, j :: 0 <= i < j < |secs| ==> Rank(secs[i]) < Rank(secs[j])
  }

  lemma AddIfAscending(secs: seq<Section>, cond: bool, sec: Section)
    requires Ascending(secs) && forall i :: 0 <= i < |secs| ==> Rank(secs[i]) < Rank(sec)
    ensures Ascending(AddIf(secs, cond, sec))
    ensures forall i :: 0 <= i < |AddIf(secs, cond, sec)| ==> Rank(AddIf(secs, cond, sec)[i]) <= Rank(sec)
  {
  }

  /** The parts come in the fixed order, each at most once. */
  lemma LayoutAscending(summary: Option<string>, priority: bool, phishing: bool, backlog: bool)
    ensures Ascending(Layout(summary, priority, phishing, backlog))
  {
    var opening := if summary.Some? then [Intro, Summary(summary.value)] else [Intro];
    AddIfAscending(opening, priority, Priority);
    var a := AddIf(opening, priority, Priority);
    AddIfAscending(a, phishing, Phishing);
    var b := AddIf(a, phishing, Phishing);
    AddIfAscending(b, backlog, Backlog);
    var c := AddIf(b, backlog, Backlog);
    AddIfAscending(c, |c| == 1, General);
    AddIfAscending(AddIf(c, |c| == 1, General), true, Deployment);
  }

  /** Which parts the offline answer holds, each exactly under the condition
      that adds it, in the fixed order; general guidance only when neither a
      context nor a topic added anything. */
  lemma SectionsPresence(userMessage: string, contextText: Option<string>)
    ensures var secs := Sections(userMessage, contextText);
      && Ascending(secs)
      && secs[0] == Intro && secs[|secs| - 1] == Deployment
      && (HasContext(contextText) <==> exists c :: Summary(c) in secs)
      && (HasContext(contextText) ==> secs[1] == Summary(contextText.value))
      && (Priority in secs <==> AsksPriority(userMessage))
      && (Phishing in secs <==> AsksPhishing(userMessage))
      && (Backlog in secs <==> AsksBacklog(userMessage))
      && (General in secs <==>
            !HasContext(contextText) && !AsksPriority(userMessage) && !AsksPhishing(userMessage)
            && !AsksBacklog(userMessage))
  {
    LayoutAscending(if HasContext(contextText) then contextText else None,
      AsksPriority(userMessage), AsksPhishing(userMessage), AsksBacklog(userMessage));
    LayoutPresence(if HasContext(contextText) then contextText else None,
      AsksPriority(userMessage), AsksPhishing(userMessage), AsksBacklog(userMessage));
  }
}
