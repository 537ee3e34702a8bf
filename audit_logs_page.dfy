/** The audit log page's display formatters: the action badge, the content
    summary and the shortened task id. */
module AuditLogsPage {
  import opened Wrappers
  import opened Text
  import opened LogModel

  /** A badge: its colour variant and its caption. */
  datatype Badge = Badge(variant: string, caption: string)

  /** `getActionBadge`: the three known actions get a short label and a
      colour; any other text is shown as it is, in grey. */
  function ActionBadge(action: string): (b: Badge)
    ensures action == "Create Task" ==> b == Badge("success", "Create")
    ensures action == "Update Task" ==> b == Badge("warning", "Update")
    ensures action == "Delete Task" ==> b == Badge("danger", "Delete")
    ensures b.variant == "secondary" <==> ParseAction(action).None?
    ensures b.variant == "secondary" ==> b.caption == action
  {
    if action == "Create Task" then Badge("success", "Create")
    else if action == "Update Task" then Badge("warning", "Update")
    else if action == "Delete Task" then Badge("danger", "Delete")
    else Badge("secondary", action)
  }

  /** Every action the log schema admits gets its own coloured badge, whose
      label is the action's name without the trailing ` Task`. */
  lemma BadgeNamesAction(a: Action)
    ensures ActionBadge(ActionName(a)).variant != "secondary"
    ensures ActionBadge(ActionName(a)).caption + " Task" == ActionName(a)
    ensures forall a': Action :: a' != a ==> ActionBadge(ActionName(a')) != ActionBadge(ActionName(a))
  {
    ActionNameRoundTrip(a);
  }

  /** The value `formatContent` receives: absent (`undefined`/`null`), some
      non-object value, or an object given by its entries in order. Entry
      values are shown through their string form. */
  datatype Content = Missing | Scalar(text: string) | Object(entries: seq<(string, string)>)

  /** The content a log entry carries, as the page receives it. */
  function ContentOf(cs: ChangeSet): (c: Content)
    ensures c.Object? && |c.entries| == |cs|
    ensures forall i | 0 <= i < |cs| :: c.entries[i] == (cs[i].key, cs[i].value)
  {
    Object(seq(|cs|, i requires 0 <= i < |cs| => (cs[i].key, cs[i].value)))
  }

  /** One entry as `key: "value"`. */
  function RenderEntry(e: (string, string)): (r: string)
    ensures |r| >= |e.0| + 4 && e.0 <= r && r[|e.0|] == ':'
  {
    e.0 + ": \"" + e.1 + "\""
  }

  function RenderEntries(es: seq<(string, string)>): (rs: seq<string>)
    ensures |rs| == |es|
    ensures forall i | 0 <= i < |es| :: rs[i] == RenderEntry(es[i])
  {
    if es == [] then [] else [RenderEntry(es[0])] + RenderEntries(es[1..])
  }

  /** `formatContent`: `-` for anything but an object with at least one
      entry; otherwise the rendered entries joined with `, `. */
  function FormatContent(c: Content): (r: string)
    ensures !c.Object? || c.entries == [] ==> r == "-"
    ensures c.Object? && c.entries != [] ==> RenderEntry(c.entries[0]) <= r
    ensures c.Object? && |c.entries| == 1 ==> r == RenderEntry(c.entries[0])
  {
    if !c.Object? || |c.entries| == 0 then "-"
    else Join(RenderEntries(c.entries), ", ")
  }

  /** The summary is `-` exactly when there is nothing to list: a key-value
      object always renders with at least a `:`. */
  lemma DashIffNothingToList(c: Content)
    ensures FormatContent(c) == "-" <==> !c.Object? || c.entries == []
  {
    if c.Object? && c.entries != [] {
      var rs := RenderEntries(c.entries);
      assert rs[0] <= FormatContent(c);
      assert |FormatContent(c)| >= 4;
    }
  }

  /** Entries are listed in the object's order: the summary of two runs of
      entries is the first summary, `, `, then the second. */
  lemma {:induction false} FormatInEntryOrder(a: seq<(string, string)>, b: seq<(string, string)>)
    requires a != [] && b != []
    ensures FormatContent(Object(a + b)) == FormatContent(Object(a)) + ", " + FormatContent(Object(b))
  {
    RenderEntriesConcat(a, b);
    JoinConcat(RenderEntries(a), RenderEntries(b), ", ");
  }

  lemma {:induction false} RenderEntriesConcat(a: seq<(string, string)>, b: seq<(string, string)>)
    ensures RenderEntries(a + b) == RenderEntries(a) + RenderEntries(b)
  {
    var l := RenderEntries(a + b);
    var r := RenderEntries(a) + RenderEntries(b);
    assert |l| == |r|;
    forall i | 0 <= i < |l|
      ensures l[i] == r[i]
    {
      if i < |a| {
        assert (a + b)[i] == a[i];
      } else {
        assert (a + b)[i] == b[i - |a|];
      }
    }
  }

  lemma {:induction false} JoinConcat(x: seq<string>, y: seq<string>, sep: string)
    requires x != [] && y != []
    ensures Join(x + y, sep) == Join(x, sep) + sep + Join(y, sep)
  {
    if |x| == 1 {
      assert (x + y)[1..] == y;
    } else {
      JoinConcat(x[1..], y, sep);
      assert (x + y)[1..] == x[1..] + y;
    }
  }

  lemma FormatTwoEntries(a: (string, string), b: (string, string))
    ensures FormatContent(Object([a, b])) == RenderEntry(a) + ", " + RenderEntry(b)
  {
    var rs := RenderEntries([a, b]);
    assert rs == [RenderEntry(a), RenderEntry(b)];
    assert rs[1..] == [RenderEntry(b)];
    assert Join(rs, ", ") == rs[0] + ", " + Join(rs[1..], ", ");
  }

  /** A `Create Task` entry shows both stored fields, title first; a
      `Delete Task` entry, whose content is empty, shows `-`. */
  lemma CreateAndDeleteShown(title: string, description: string)
    ensures FormatContent(ContentOf([Field("title", title), Field("description", description)]))
            == "title: \"" + title + "\", description: \"" + description + "\""
    ensures FormatContent(ContentOf([])) == "-"
  {
    var c := ContentOf([Field("title", title), Field("description", description)]);
    assert c.entries == [("title", title), ("description", description)];
    FormatTwoEntries(("title", title), ("description", description));
  }

  /** The task id column: the last six characters of the id, all of it when
      shorter, and `-` when there is none (an empty string counts as none). */
  function ShortId(taskId: Option<string>): (r: string)
    ensures taskId.None? || taskId == Some("") ==> r == "-"
    ensures taskId.Some? && taskId.value != "" ==>
              && |r| == (if |taskId.value| < 6 then |taskId.value| else 6)
              && r == taskId.value[|taskId.value| - |r|..]
  {
    if taskId.None? || taskId.value == "" then "-"
    else if |taskId.value| <= 6 then taskId.value
    else taskId.value[|taskId.value| - 6..]
  }
}
