// A bulk read is answered within one mebibyte: placeholders for every ID are laid out first, each fetched body
// replaces its placeholder, and a body that would not fit is replaced by a shorter notice
// (src/gmail/bulk/budget.rs, src/broker/handlers/bulk_emails.rs).
module ReadBudget {
  import opened Wrappers
  import opened Json
  import opened BoundedExecutor
  import opened Frames

  const MAX_BULK_RESULT_BYTES: nat := 1024 * 1024
  const MAX_READ_IDS: nat := 20
  const WINDOW: nat := 4

  datatype BodyStatus = Complete | NoReadableBody | Incomplete

  datatype Email = Email(
    messageId: string, threadId: string, from: Option<string>, to: seq<string>, cc: seq<string>, bcc: seq<string>,
    date: Option<string>, subject: Option<string>, labels: seq<string>, bodyText: Option<string>,
    bodyStatus: BodyStatus)

  datatype Outcome =
    | Succeeded(result: Email)
    | Failed(code: string, message: string)
    | Unknown(code: string, message: string)
    | NotAttempted(code: string, message: string)

  datatype Item = Item(index: nat, outcome: Outcome)

  // --- What is written ----------------------------------------------------------------------------

  function OptionalText(o: Option<string>): Value {
    if o.Some? then Text(o.value) else Null
  }

  function Texts(s: seq<string>): Value {
    Array(seq(|s|, i requires 0 <= i < |s| => Text(s[i])))
  }

  function EmailValue(e: Email): Value {
    var status := match e.bodyStatus
                  case Complete => "complete"
                  case NoReadableBody => "no_readable_body"
                  case Incomplete => "incomplete";
    Object([
      ("message_id", Text(e.messageId)), ("thread_id", Text(e.threadId)), ("from", OptionalText(e.from)),
      ("recipients", Object([("to", Texts(e.to)), ("cc", Texts(e.cc)), ("bcc", Texts(e.bcc))])),
      ("date", OptionalText(e.date)), ("subject", OptionalText(e.subject)), ("labels", Texts(e.labels)),
      ("body_text", OptionalText(e.bodyText)), ("body_status", Text(status))
    ])
  }

  function Notice(index: nat, status: string, code: string, message: string): Value {
    Labelled("index", "status", "code", "message", index, status, code, message)
  }

  function Labelled(
    a: string, b: string, c: string, d: string, index: nat, status: string, code: string, message: string): Value
  {
    Object([(a, Number(index)), (b, Text(status)), (c, Text(code)), (d, Text(message))])
  }

  function ItemValue(item: Item): Value {
    match item.outcome
    case Succeeded(e) =>
      Object([("index", Number(item.index)), ("status", Text("succeeded")), ("result", EmailValue(e))])
    case Failed(code, message) => Notice(item.index, "failed", code, message)
    case Unknown(code, message) => Notice(item.index, "unknown", code, message)
    case NotAttempted(code, message) => Notice(item.index, "not_attempted", code, message)
  }

  function ItemValues(items: seq<Item>): seq<Value> {
    seq(|items|, i requires 0 <= i < |items| => ItemValue(items[i]))
  }

  // The bare result, as the tool server checks it, and the same inside the broker's response.
  function ResultValue(items: seq<Item>): Value {
    Object([("items", Array(ItemValues(items)))])
  }

  function ResponseValue(items: seq<Item>): Value {
    Object([("status", Text("emails_read")), ("result", ResultValue(items))])
  }

  // With its newline the response is one frame.
  predicate Fits(items: seq<Item>) {
    |Encode(ResponseValue(items))| + 1 <= MAX_BULK_RESULT_BYTES
  }

  function BudgetOutcome(fetched: bool): Outcome {
    var code := "response_budget_exceeded";
    var message := "retry this ID in a smaller read set or use read_email";
    if fetched then Failed(code, message) else NotAttempted(code, message)
  }

  function Placeholders(count: nat): seq<Item> {
    seq(count, i requires 0 <= i => Item(i, BudgetOutcome(false)))
  }

  // --- Sizes --------------------------------------------------------------------------------------

  lemma ObjectOfTwo(a: string, v: Value, b: string, w: Value)
    ensures |Encode(Object([(a, v), (b, w)]))| == |Quote(a)| + |Encode(v)| + |Quote(b)| + |Encode(w)| + 5
  {
    FieldsOfTwo((a, v), (b, w));
  }

  lemma ObjectOfArray(a: string, items: seq<Value>)
    ensures |Encode(Object([(a, Array(items))]))| == |Quote(a)| + |EncodeItems(items)| + 5
  {
    var f := (a, Array(items));
    assert EncodeFields([f]) == EncodeField(f);
    assert Encode(f.1) == "[" + EncodeItems(items) + "]";
  }

  lemma LabelledSize(
    a: string, b: string, c: string, d: string, index: nat, status: string, code: string, message: string)
    ensures |Encode(Labelled(a, b, c, d, index, status, code, message))| ==
            |Quote(a)| + |Decimal(index)| + |Quote(b)| + |Quote(status)|
            + |Quote(c)| + |Quote(code)| + |Quote(d)| + |Quote(message)| + 9
  {
    FieldsOfFour((a, Number(index)), (b, Text(status)), (c, Text(code)), (d, Text(message)));
  }

  lemma QuoteSize(s: string)
    ensures |s| + 2 <= |Quote(s)| <= 6 * |s| + 2
  {
    EscapeSize(s);
  }

  lemma ShorterStatus(
    a: string, b: string, c: string, d: string, index: nat, s: string, t: string, code: string, message: string)
    requires Plain(s) && |s| < |t|
    ensures |Encode(Labelled(a, b, c, d, index, s, code, message))|
            < |Encode(Labelled(a, b, c, d, index, t, code, message))|
  {
    LabelledSize(a, b, c, d, index, s, code, message);
    LabelledSize(a, b, c, d, index, t, code, message);
    PlainEscape(s);
    QuoteSize(t);
  }

  // The notice for a body that was fetched is shorter than the placeholder it replaces.
  lemma NoticeIsShorter(index: nat)
    ensures |Encode(ItemValue(Item(index, BudgetOutcome(true))))|
            < |Encode(ItemValue(Item(index, BudgetOutcome(false))))|
  {
    var notice := BudgetOutcome(true);
    ShorterStatus("index", "status", "code", "message", index, "failed", "not_attempted", notice.code, notice.message);
  }

  const MOST_PLACEHOLDER: nat := 1000

  lemma LabelledBound(
    a: string, b: string, c: string, d: string, index: nat, status: string, code: string, message: string)
    requires index < 100 && |a| + |b| + |c| + |d| + |status| + |code| + |message| <= 150
    ensures |Encode(Labelled(a, b, c, d, index, status, code, message))| <= MOST_PLACEHOLDER
  {
    LabelledSize(a, b, c, d, index, status, code, message);
    assert |Decimal(index)| <= 2;
    QuoteSize(a);
    QuoteSize(b);
    QuoteSize(c);
    QuoteSize(d);
    QuoteSize(status);
    QuoteSize(code);
    QuoteSize(message);
  }

  lemma WrappedSize(a: string, tag: string, b: string, c: string, values: seq<Value>)
    ensures var inner := Object([(c, Array(values))]);
            && |Encode(inner)| == |EncodeItems(values)| + |Quote(c)| + 5
            && |Encode(Object([(a, Text(tag)), (b, inner)]))|
               == |Encode(inner)| + |Quote(a)| + |Quote(tag)| + |Quote(b)| + 5
  {
    var inner := Object([(c, Array(values))]);
    ObjectOfArray(c, values);
    ObjectOfTwo(a, Text(tag), b, inner);
  }

  lemma WrappedBound(a: string, tag: string, b: string, c: string, values: seq<Value>)
    requires |a| + |tag| + |b| + |c| <= 40
    ensures |Encode(Object([(a, Text(tag)), (b, Object([(c, Array(values))]))]))| <= |EncodeItems(values)| + 300
  {
    WrappedSize(a, tag, b, c, values);
    QuoteSize(a);
    QuoteSize(tag);
    QuoteSize(b);
    QuoteSize(c);
  }

  lemma PlaceholderBound(index: nat)
    requires index < 100
    ensures |Encode(ItemValue(Item(index, BudgetOutcome(false))))| <= MOST_PLACEHOLDER
  {
    var first := BudgetOutcome(false);
    LabelledBound("index", "status", "code", "message", index, "not_attempted", first.code, first.message);
  }

  lemma FewItemsFit(items: seq<Item>)
    requires |items| <= MAX_READ_IDS
    requires forall i | 0 <= i < |items| :: |Encode(ItemValue(items[i]))| <= MOST_PLACEHOLDER
    ensures Fits(items)
  {
    var values := ItemValues(items);
    ItemsSize(values, MOST_PLACEHOLDER);
    WrappedBound("status", "emails_read", "result", "items", values);
  }

  // The complete set of placeholders fits, for every number of IDs a request may have.
  lemma PlaceholdersFit(count: nat)
    requires count <= MAX_READ_IDS
    ensures Fits(Placeholders(count))
  {
    var items := Placeholders(count);
    forall i | 0 <= i < |items| ensures |Encode(ItemValue(items[i]))| <= MOST_PLACEHOLDER {
      PlaceholderBound(i);
    }
    FewItemsFit(items);
  }

  // Replacing one item changes the response by the difference between the items.
  lemma ItemChangesSize(items: seq<Item>, i: nat, item: Item)
    requires i < |items|
    ensures |Encode(ResponseValue(items[i := item]))| + |Encode(ItemValue(items[i]))| ==
            |Encode(ResponseValue(items))| + |Encode(ItemValue(item))|
  {
    assert ItemValues(items[i := item]) == ItemValues(items)[i := ItemValue(item)];
    ItemReplaced(ItemValues(items), i, ItemValue(item));
    WrappedSize("status", "emails_read", "result", "items", ItemValues(items));
    WrappedSize("status", "emails_read", "result", "items", ItemValues(items[i := item]));
  }

  // --- The assembly -------------------------------------------------------------------------------

  // The items after one insertion: the outcome itself, unless the whole response would then be too large.
  function Inserted(items: seq<Item>, index: nat, outcome: Outcome): seq<Item>
    requires index < |items|
  {
    var candidate := items[index := items[index].(outcome := outcome)];
    if Fits(candidate) then candidate else items[index := items[index].(outcome := BudgetOutcome(true))]
  }

  // An insertion over a placeholder never breaks the budget, however large the outcome.
  lemma InsertKeepsBudget(items: seq<Item>, index: nat, outcome: Outcome)
    requires index < |items| && items[index].outcome == BudgetOutcome(false) && Fits(items)
    ensures Fits(Inserted(items, index, outcome))
  {
    ItemChangesSize(items, index, items[index].(outcome := BudgetOutcome(true)));
    NoticeIsShorter(items[index].index);
  }

  // The items after inserting outcomes one by one from position start, and whether one of them did not fit.
  ghost function InsertedAll(items: seq<Item>, start: nat, outcomes: seq<Outcome>): (r: seq<Item>)
    requires start + |outcomes| <= |items|
    ensures |r| == |items|
    decreases |outcomes|
  {
    if outcomes == [] then items
    else
      var n := |outcomes| - 1;
      Inserted(InsertedAll(items, start, outcomes[..n]), start + n, outcomes[n])
  }

  ghost predicate Overflows(items: seq<Item>, start: nat, outcomes: seq<Outcome>)
    requires start + |outcomes| <= |items|
    decreases |outcomes|
  {
    outcomes != [] &&
    var n := |outcomes| - 1;
    var before := InsertedAll(items, start, outcomes[..n]);
    Overflows(items, start, outcomes[..n]) || !Fits(before[start + n := before[start + n].(outcome := outcomes[n])])
  }

  class ReadAssembly {
    var items: seq<Item>
    var exhausted: bool

    constructor (count: nat)
      ensures items == Placeholders(count) && !exhausted
    {
      items := Placeholders(count);
      exhausted := false;
    }

    method Insert(index: nat, outcome: Outcome)
      requires index < |items|
      modifies this
      ensures items == Inserted(old(items), index, outcome)
      ensures exhausted == (old(exhausted) || !Fits(old(items)[index := old(items)[index].(outcome := outcome)]))
    {
      items := items[index := items[index].(outcome := outcome)];
      if !Fits(items) {
        items := items[index := items[index].(outcome := BudgetOutcome(true))];
        exhausted := true;
      }
    }
  }

  // --- The read loop ------------------------------------------------------------------------------

  // Position i holds the outcome that was fetched for it; from the first one that did not fit, a position may
  // hold the notice instead.
  predicate Settled(items: seq<Item>, got: seq<Outcome>, exact: nat, i: nat) {
    && i < |items| && i < |got|
    && (items[i].outcome == got[i] || (i >= exact && items[i].outcome == BudgetOutcome(true)))
  }

  predicate Untouched(items: seq<Item>, i: nat) {
    i < |items| && items[i] == Item(i, BudgetOutcome(false))
  }

  ghost predicate AssemblyOk(items: seq<Item>, got: seq<Outcome>, exact: nat) {
    && exact <= |got| <= |items| && Fits(items)
    && (forall i | 0 <= i < |items| :: items[i].index == i)
    && (forall i {:trigger Settled(items, got, exact, i)} | 0 <= i < |got| :: Settled(items, got, exact, i))
    && (forall i {:trigger Untouched(items, i)} | |got| <= i < |items| :: Untouched(items, i))
    && (exact < |got| ==> items[exact].outcome == BudgetOutcome(true))
  }

  lemma AssemblyStarts(count: nat)
    requires count <= MAX_READ_IDS
    ensures AssemblyOk(Placeholders(count), [], 0)
  {
    PlaceholdersFit(count);
  }

  ghost function ExactAfter(items: seq<Item>, got: seq<Outcome>, exact: nat, outcome: Outcome): nat
    requires |got| < |items|
  {
    if exact == |got| && Fits(items[|got| := items[|got|].(outcome := outcome)]) then exact + 1 else exact
  }

  lemma AssemblyAdvances(items: seq<Item>, got: seq<Outcome>, exact: nat, outcome: Outcome)
    requires AssemblyOk(items, got, exact) && |got| < |items|
    ensures AssemblyOk(Inserted(items, |got|, outcome), got + [outcome], ExactAfter(items, got, exact, outcome))
  {
    var now, more, e := Inserted(items, |got|, outcome), got + [outcome], ExactAfter(items, got, exact, outcome);
    assert Untouched(items, |got|);
    InsertKeepsBudget(items, |got|, outcome);
    forall i | 0 <= i < |more| ensures Settled(now, more, e, i) {
      if i < |got| {
        assert Settled(items, got, exact, i);
      }
    }
    forall i | |more| <= i < |now| ensures Untouched(now, i) {
      assert Untouched(items, i);
    }
  }

  lemma AssemblyStep(items: seq<Item>, got: seq<Outcome>, exact: nat, at: nat, outcome: Outcome) returns (next: nat)
    requires AssemblyOk(items, got, exact) && at == |got| < |items|
    ensures exact <= next && AssemblyOk(Inserted(items, at, outcome), got + [outcome], next)
    ensures next <= at <==> exact < at || !Fits(items[at := items[at].(outcome := outcome)])
  {
    next := ExactAfter(items, got, exact, outcome);
    AssemblyAdvances(items, got, exact, outcome);
  }

  lemma InsertedLast(items: seq<Item>, start: nat, front: seq<Outcome>, last: Outcome)
    requires start + |front| < |items|
    ensures InsertedAll(items, start, front + [last])
            == Inserted(InsertedAll(items, start, front), start + |front|, last)
    ensures Overflows(items, start, front + [last]) <==>
              var before, at := InsertedAll(items, start, front), start + |front|;
              Overflows(items, start, front) || !Fits(before[at := before[at].(outcome := last)])
  {
    assert (front + [last])[..|front|] == front;
  }

  // The outcomes of one window, inserted over placeholders, advance the whole assembly; the first that does not
  // fit, if any, is where the notices begin.
  lemma {:induction false} WindowAdvances(items: seq<Item>, got: seq<Outcome>, outcomes: seq<Outcome>)
    returns (exact: nat)
    requires AssemblyOk(items, got, |got|) && |got| + |outcomes| <= |items|
    ensures AssemblyOk(InsertedAll(items, |got|, outcomes), got + outcomes, exact) && |got| <= exact
    ensures Overflows(items, |got|, outcomes) <==> exact < |got| + |outcomes|
    decreases |outcomes|
  {
    if outcomes == [] {
      exact := |got|;
      assert got + outcomes == got;
    } else {
      var n := |outcomes| - 1;
      var front, last := outcomes[..n], outcomes[n];
      exact := WindowAdvances(items, got, front);
      exact := WindowExtends(items, got, front, last, exact);
      assert outcomes == front + [last];
      assert (got + front) + [last] == got + outcomes;
    }
  }

  lemma WindowExtends(items: seq<Item>, got: seq<Outcome>, front: seq<Outcome>, last: Outcome, exact: nat)
    returns (next: nat)
    requires |got| + |front| < |items| && |got| <= exact
    requires AssemblyOk(InsertedAll(items, |got|, front), got + front, exact)
    requires Overflows(items, |got|, front) <==> exact < |got| + |front|
    ensures AssemblyOk(InsertedAll(items, |got|, front + [last]), (got + front) + [last], next) && |got| <= next
    ensures Overflows(items, |got|, front + [last]) <==> next < |got| + |front + [last]|
  {
    next := AssemblyStep(InsertedAll(items, |got|, front), got + front, exact, |got| + |front|, last);
    InsertedLast(items, |got|, front, last);
  }

  // One window's outcomes, inserted one after another from its first position.
  method InsertWindow(assembly: ReadAssembly, start: nat, outcomes: seq<Outcome>)
    requires start + |outcomes| <= |assembly.items|
    modifies assembly
    ensures assembly.items == InsertedAll(old(assembly.items), start, outcomes)
    ensures assembly.exhausted <==> old(assembly.exhausted) || Overflows(old(assembly.items), start, outcomes)
  {
    ghost var first := assembly.items;
    var k := 0;
    while k < |outcomes|
      invariant 0 <= k <= |outcomes| && assembly.items == InsertedAll(first, start, outcomes[..k])
      invariant assembly.exhausted <==> old(assembly.exhausted) || Overflows(first, start, outcomes[..k])
    {
      assert outcomes[..k + 1][..k] == outcomes[..k];
      assembly.Insert(start + k, outcomes[k]);
      k := k + 1;
    }
    assert outcomes[..k] == outcomes;
  }

  ghost predicate FetchedAt(got: seq<Outcome>, ids: seq<string>, fetch: (nat, nat, string) -> Outcome, i: nat)
    requires |got| <= |ids|
  {
    i < |got| && exists t :: got[i] == fetch(i / 4, t, ids[i])
  }

  // The window that starts at position start, run by its own workers.
  method ReadWindow(ids: seq<string>, fetch: (nat, nat, string) -> Outcome, w: nat, ghost got: seq<Outcome>)
    returns (results: seq<Outcome>)
    requires |got| == w * WINDOW < |ids|
    requires forall i {:trigger FetchedAt(got, ids, fetch, i)} | 0 <= i < |got| :: FetchedAt(got, ids, fetch, i)
    ensures |got| + |results| == if |got| + WINDOW < |ids| then |got| + WINDOW else |ids|
    ensures var now := got + results;
            forall i {:trigger FetchedAt(now, ids, fetch, i)} | 0 <= i < |now| :: FetchedAt(now, ids, fetch, i)
  {
    var start := w * WINDOW;
    var end := if start + WINDOW < |ids| then start + WINDOW else |ids|;
    ghost var calls, ended;
    results, calls, ended := BoundedMap(ids[start..end], (t, id) => fetch(w, t, id));
    ghost var now := got + results;
    forall i | 0 <= i < |now| ensures FetchedAt(now, ids, fetch, i) {
      if i < |got| {
        assert FetchedAt(got, ids, fetch, i);
        assert now[i] == got[i];
      } else {
        assert now[i] == results[i - start] == fetch(w, ended[i - start], ids[i]);
        assert i / WINDOW == w;
      }
    }
  }

  // Everything up to the last window entered is fetched, and exact lies in that window or at the end of all.
  ghost predicate ReadSoFar(
    items: seq<Item>, exhausted: bool, got: seq<Outcome>, exact: nat, ids: seq<string>,
    fetch: (nat, nat, string) -> Outcome, w: nat)
  {
    && |items| == |ids| && AssemblyOk(items, got, exact)
    && |got| == (if w * WINDOW < |ids| then w * WINDOW else |ids|)
    && (forall i {:trigger FetchedAt(got, ids, fetch, i)} | 0 <= i < |got| :: FetchedAt(got, ids, fetch, i))
    && (exhausted <==> exact < |got|)
    && (exhausted ==> exact / WINDOW == (|got| - 1) / WINDOW)
  }

  lemma WindowRead(
    items: seq<Item>, got: seq<Outcome>, exact: nat, ids: seq<string>, fetch: (nat, nat, string) -> Outcome, w: nat,
    results: seq<Outcome>, exhausted: bool)
    returns (now: nat)
    requires ReadSoFar(items, false, got, exact, ids, fetch, w) && w * WINDOW < |ids|
    requires |got| + |results| == if |got| + WINDOW < |ids| then |got| + WINDOW else |ids|
    requires var all := got + results;
             forall i {:trigger FetchedAt(all, ids, fetch, i)} | 0 <= i < |all| :: FetchedAt(all, ids, fetch, i)
    requires exhausted == Overflows(items, |got|, results)
    ensures ReadSoFar(InsertedAll(items, |got|, results), exhausted, got + results, now, ids, fetch, w + 1)
  {
    now := WindowAdvances(items, got, results);
  }

  // fetch(w, t, id) is what reading id in window w gives at step t of that window's workers. got lists the outcomes
  // of the IDs that were fetched, four in a window, a prefix of the request; exact is where the first notice
  // stands.
  method ReadEmails(ids: seq<string>, fetch: (nat, nat, string) -> Outcome)
    returns (items: seq<Item>, ghost got: seq<Outcome>, ghost exact: nat)
    requires |ids| <= 20
    ensures |items| == |ids| && |got| <= |ids| && AssemblyOk(items, got, exact)
    ensures forall i {:trigger FetchedAt(got, ids, fetch, i)} | 0 <= i < |got| :: FetchedAt(got, ids, fetch, i)
    // Everything is fetched, or the last window fetched is the one in which a body did not fit.
    ensures if exact == |got| then |got| == |ids| else exact / 4 == (|got| - 1) / 4
  {
    var assembly := new ReadAssembly(|ids|);
    got, exact := [], 0;
    AssemblyStarts(|ids|);
    var w := 0;
    while w * WINDOW < |ids| && !assembly.exhausted
      invariant fresh(assembly)
      invariant ReadSoFar(assembly.items, assembly.exhausted, got, exact, ids, fetch, w)
      decreases |ids| - w * WINDOW
    {
      var results := ReadWindow(ids, fetch, w, got);
      ghost var before := assembly.items;
      InsertWindow(assembly, w * WINDOW, results);
      exact := WindowRead(before, got, exact, ids, fetch, w, results, assembly.exhausted);
      got := got + results;
      w := w + 1;
    }
    items := assembly.items;
  }

  // --- The checks further down the line -----------------------------------------------------------

  // The broker's last check of a bulk read, and the tool server's check of the same result, never fire on an assembled
  // read: both stay within one mebibyte. Every position is accounted for under its own index; and
  // past the window in which a body did not fit every ID is reported as not attempted.
  lemma AssembledReadIsDelivered(items: seq<Item>, got: seq<Outcome>, exact: nat)
    requires AssemblyOk(items, got, exact)
    ensures |Encode(ResponseValue(items))| + 1 <= 1_048_576 && |Encode(ResultValue(items))| <= 1_048_576
    ensures var frame := Encode(ResponseValue(items)) + "\n";
            ReadResult(frame, false, MAX_RESPONSE_BYTES) == Ok(frame)
    ensures forall i | 0 <= i < |items| :: items[i].index == i
    ensures forall i | 0 <= i < exact :: items[i].outcome == got[i]
    ensures forall i | |got| <= i < |items| :: items[i].outcome.NotAttempted?
  {
    WrappedSize("status", "emails_read", "result", "items", ItemValues(items));
    FrameIsRead(ResponseValue(items), "", false, MAX_RESPONSE_BYTES);
    assert Encode(ResponseValue(items)) + "\n" + "" == Encode(ResponseValue(items)) + "\n";
    forall i | 0 <= i < exact ensures items[i].outcome == got[i] {
      assert Settled(items, got, exact, i);
    }
    forall i | |got| <= i < |items| ensures items[i].outcome.NotAttempted? {
      assert Untouched(items, i);
    }
  }
}
