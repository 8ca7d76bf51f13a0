/** telegram_bot.py: the grouped assignments are rendered as one MarkdownV2 message per
    handler and delivered with a bounded retry loop over a fallible transport. */
module TelegramBot {
  import opened StrOps
  import opened Collections
  import opened SheetsHandler

  const MaxRetries := 5
  const RetryDelaySeconds := 5

  /** escape_chars: the characters escape_markdown puts a backslash before. The backslash
      itself is not among them. */
  const Specials: set<char> := {'_', '*', '[', ']', '(', ')', '~', '`', '>', '#', '+', '-', '=', '|', '{', '}', '.', '!'}

  /** escape_markdown: a backslash before every special character. */
  function Escape(s: string): (r: string) {
    if s == [] then []
    else (if s[0] in Specials then ['\\', s[0]] else [s[0]]) + Escape(s[1..])
  }

  function CountSpecials(s: string): nat {
    if s == [] then 0 else (if s[0] in Specials then 1 else 0) + CountSpecials(s[1..])
  }

  /** Escaping adds exactly one character per special character. */
  lemma {:induction false} EscapeLength(s: string)
    ensures |Escape(s)| == |s| + CountSpecials(s)
  {
    if s != [] {
      EscapeLength(s[1..]);
    }
  }

  /** The inverse of escaping: each backslash that precedes a special character is
      dropped, every other character is kept. A backslash of the input itself is not a
      special character, so MarkdownV2, which also reads a backslash before any other
      character as an escape, may read an escaped text differently. */
  function Unescape(t: string): string {
    if t == [] then []
    else if |t| >= 2 && t[0] == '\\' && t[1] in Specials then [t[1]] + Unescape(t[2..])
    else [t[0]] + Unescape(t[1..])
  }

  /** A backslash of the input passes through unescaped: "a\." becomes "a\\.", where the
      input's backslash now stands right before the backslash that escapes the dot. */
  lemma BackslashNotEscaped()
    ensures Escape("a\\.") == "a\\\\."
  {
  }

  /** An escaped text never starts with a bare special character. */
  lemma EscapeHead(s: string)
    ensures Escape(s) == [] || Escape(s)[0] !in Specials
  {
  }

  /** Dropping the escaping backslashes gives the original text back. */
  lemma {:induction false} UnescapeEscape(s: string)
    ensures Unescape(Escape(s)) == s
  {
    if s != [] {
      var rest := Escape(s[1..]);
      UnescapeEscape(s[1..]);
      if s[0] in Specials {
        assert Escape(s) == ['\\', s[0]] + rest;
        assert (['\\', s[0]] + rest)[2..] == rest;
      } else {
        EscapeHead(s[1..]);
        assert Escape(s) == [s[0]] + rest;
        assert ([s[0]] + rest)[1..] == rest;
      }
      assert [s[0]] + s[1..] == s;
    }
  }

  /** Every special character of an escaped text is preceded by a backslash. */
  lemma {:induction false} EscapeGuardsSpecials(s: string)
    ensures forall i :: 0 <= i < |Escape(s)| && Escape(s)[i] in Specials ==> i > 0 && Escape(s)[i - 1] == '\\'
  {
    if s != [] {
      var rest := Escape(s[1..]);
      EscapeGuardsSpecials(s[1..]);
      EscapeHead(s[1..]);
      var head := if s[0] in Specials then ['\\', s[0]] else [s[0]];
      assert Escape(s) == head + rest;
      forall i | 0 <= i < |Escape(s)| && Escape(s)[i] in Specials
        ensures i > 0 && Escape(s)[i - 1] == '\\'
      {
        if i > |head| {
          assert Escape(s)[i] == rest[i - |head|];
          assert Escape(s)[i - 1] == rest[i - |head| - 1];
        }
      }
    }
  }

  /** Escaping distributes over concatenation. */
  lemma {:induction false} EscapeAppend(a: string, b: string)
    ensures Escape(a + b) == Escape(a) + Escape(b)
  {
    if a != [] {
      assert (a + b)[1..] == a[1..] + b;
      EscapeAppend(a[1..], b);
    } else {
      assert a + b == b;
    }
  }

  /** A text with no special character is left as it is; in particular '' stays ''. */
  lemma {:induction false} EscapePlain(s: string)
    requires forall i :: 0 <= i < |s| ==> s[i] !in Specials
    ensures Escape(s) == s
  {
    if s != [] {
      EscapePlain(s[1..]);
    }
  }

  /** The due date can be tested and subtracted: missing, falsy, or a date. */
  predicate DueRenderable(row: Row) {
    var due := Get(row, "dueDate", Null);
    due.Day? || !Truthy(due)
  }

  /** The days-remaining phrase, before escaping. */
  function DuePhrase(due: Value, today: int): string
    requires due.Day? || !Truthy(due)
  {
    if Truthy(due) then
      var daysRemaining := due.d - today;
      if daysRemaining < 0 then "Past due!"
      else if daysRemaining == 0 then "Due today"
      else if daysRemaining == 1 then "Due in 1 day"
      else "Due in " + Decimal(daysRemaining) + " days"
    else "No due date"
  }

  lemma DigitsPlain(s: string)
    requires forall i :: 0 <= i < |s| ==> '0' <= s[i] <= '9'
    ensures forall i :: 0 <= i < |s| ==> s[i] !in Specials
  {
  }

  /** The escaped phrase: only "Past due!" carries a special character. For more than
      one day remaining the phrase holds the day count in decimal. */
  lemma DuePhraseEscaped(due: Value, today: int)
    requires due.Day? || !Truthy(due)
    ensures !Truthy(due) ==> Escape(DuePhrase(due, today)) == "No due date"
    ensures due.Day? && due.d < today ==> Escape(DuePhrase(due, today)) == "Past due\\!"
    ensures due.Day? && due.d == today ==> Escape(DuePhrase(due, today)) == "Due today"
    ensures due.Day? && due.d == today + 1 ==> Escape(DuePhrase(due, today)) == "Due in 1 day"
    ensures due.Day? && due.d > today + 1 ==>
      exists digits :: Escape(DuePhrase(due, today)) == "Due in " + digits + " days"
        && (forall i :: 0 <= i < |digits| ==> '0' <= digits[i] <= '9')
        && DecimalValue(digits) == due.d - today
  {
    var p := DuePhrase(due, today);
    if !Truthy(due) {
      PlainPhrase(p);
    } else if due.d < today {
      PastDueEscaped("Past due", "!");
      assert p == "Past due" + "!";
      assert "Past due" + "\\" + "!" == "Past due\\!";
    } else if due.d == today {
      PlainPhrase(p);
    } else if due.d == today + 1 {
      PlainPhrase(p);
    } else {
      DueInDaysEscaped(due.d - today, p);
    }
  }

  lemma DueInDaysEscaped(days: nat, p: string)
    requires days > 1 && p == "Due in " + Decimal(days) + " days"
    ensures exists digits ::
      && Escape(p) == "Due in " + digits + " days"
      && (forall i :: 0 <= i < |digits| ==> '0' <= digits[i] <= '9')
      && DecimalValue(digits) == days
  {
    var digits := Decimal(days);
    DecimalRoundTrip(days);
    DigitsPlain(digits);
    PlainDueInDays(digits, "Due in ", " days");
    assert Escape(p) == "Due in " + digits + " days";
  }

  /** The fixed parts of the due phrases, "Past due!" aside, hold no special character. */
  lemma PlainPhrase(p: string)
    requires p in {"No due date", "Due today", "Due in 1 day", "Due in ", " days"}
    ensures Escape(p) == p
  {
    EscapePlain(p);
  }

  lemma PlainConcat(a: string, d: string, b: string)
    requires Escape(a) == a && Escape(d) == d && Escape(b) == b
    ensures Escape(a + d + b) == a + d + b
  {
    EscapeAppend(a + d, b);
    EscapeAppend(a, d);
  }

  // The literals are parameters pinned by `requires` so that the solver sees them as
  // opaque values in the statement and unfolds their characters only in this proof.
  lemma PlainDueInDays(digits: string, a: string, b: string)
    requires a == "Due in " && b == " days"
    requires forall i :: 0 <= i < |digits| ==> digits[i] !in Specials
    ensures Escape(a + digits + b) == a + digits + b
  {
    PlainPhrase(a);
    PlainPhrase(b);
    EscapePlain(digits);
    PlainConcat(a, digits, b);
  }

  // The literals are parameters pinned by `requires` so that the solver sees them as
  // opaque values in the statement and unfolds their characters only in this proof.
  lemma PastDueEscaped(a: string, b: string)
    requires a == "Past due" && b == "!"
    ensures Escape(a + b) == a + "\\" + b
  {
    EscapePlain(a);
    EscapeAppend(a, b);
    assert Escape(b) == ['\\', '!'] + Escape([]);
  }

  /** "checked"/"not checked" and "handed over"/"not handed over", joined by " and ". */
  function StatusPhrase(row: Row): string {
    var checkedStr := if Truthy(Get(row, "checked", Flag(false))) then "checked" else "not checked";
    var handoverStr := if Truthy(Get(row, "handOver", Flag(false))) then "handed over" else "not handed over";
    checkedStr + " and " + handoverStr
  }

  /** The text standing for a field: str() of its value, or the default when the field
      is missing. */
  function FieldText(row: Row, k: string, default: string, isoDate: int -> string): string {
    Show(Get(row, k, Text(default)), isoDate)
  }

  /** The defaults apply only to a missing field: a present empty value renders as ''. */
  lemma FieldTextDefault(row: Row, k: string, default: string, isoDate: int -> string)
    ensures k !in row ==> FieldText(row, k, default, isoDate) == default
    ensures k in row && row[k] == Text("") ==> Escape(FieldText(row, k, default, isoDate)) == ""
  {
  }

  /** The block of one assignment. */
  function Block(row: Row, today: int, isoDate: int -> string): string
    requires DueRenderable(row)
  {
    var assignmentName := Escape(FieldText(row, "assignment", "No Assignment", isoDate));
    var customerName := Escape(FieldText(row, "customerName", "Unknown Customer", isoDate));
    var dueStr := Escape(DuePhrase(Get(row, "dueDate", Null), today));
    "• *Assignment:* " + assignmentName + "\n"
      + "  *Customer:* " + customerName + "\n"
      + "  *Status:* " + StatusPhrase(row) + "\n"
      + "  *" + dueStr + "*"
  }

  function Heading(todayStr: string): string {
    "\U{1F4CB} *Your Assignments as of " + Escape(todayStr) + ":*"
  }

  predicate AllRenderable(rows: seq<Row>) {
    forall i :: 0 <= i < |rows| ==> DueRenderable(rows[i])
  }

  function BlockOf(today: int, isoDate: int -> string): Row --> string {
    row requires DueRenderable(row) => Block(row, today, isoDate)
  }

  /** The blocks of a list of assignments, in order. */
  function Blocks(rows: seq<Row>, today: int, isoDate: int -> string): (bs: seq<string>)
    requires AllRenderable(rows)
  {
    MapWhere(rows, BlockOf(today, isoDate))
  }

  /** The message of one handler: the heading and then one block per assignment,
      separated by blank lines. */
  function MessageBody(rows: seq<Row>, today: int, todayStr: string, isoDate: int -> string): string
    requires AllRenderable(rows)
  {
    Join([Heading(todayStr)] + Blocks(rows, today, isoDate), "\n\n")
  }

  predicate Renderable(grouped: Entries<seq<Row>>) {
    forall j :: 0 <= j < |grouped| ==> AllRenderable(grouped[j].1)
  }

  /** The one-message list of a handler. */
  function MessageOf(today: int, todayStr: string, isoDate: int -> string): seq<Row> --> seq<string> {
    rows requires AllRenderable(rows) => [MessageBody(rows, today, todayStr, isoDate)]
  }

  /** The body of generate_messages' loop for one handler: the heading, one block per
      assignment, joined by blank lines. */
  method HandlerMessage(assignments: seq<Row>, today: int, todayStr: string, isoDate: int -> string)
    returns (fullMessage: string)
    requires AllRenderable(assignments)
    ensures fullMessage == MessageBody(assignments, today, todayStr, isoDate)
  {
    var heading := Heading(todayStr);
    var blocks := MapEach(assignments, BlockOf(today, isoDate));
    var lines := [heading] + blocks;
    fullMessage := Join(lines, "\n\n");
  }

  /** generate_messages: one entry per handler, in the grouping's order, holding the
      one message built from that handler's assignments. */
  method GenerateMessages(grouped: Entries<seq<Row>>, today: int, todayStr: string, isoDate: int -> string)
    returns (messages: Entries<seq<string>>)
    requires DistinctKeys(grouped)
    requires Renderable(grouped)
    ensures DistinctKeys(messages) && KeysOf(messages) == KeysOf(grouped)
    ensures forall j :: 0 <= j < |messages| ==>
      messages[j].1 == [MessageBody(grouped[j].1, today, todayStr, isoDate)]
  {
    messages := MapValuesEach(grouped, MessageOf(today, todayStr, isoDate));
  }


  /** Joined text starts with the first piece. */
  lemma {:induction false} JoinStartsWith(words: seq<string>, sep: string)
    requires |words| > 0
    ensures |Join(words, sep)| >= |words[0]| && Join(words, sep)[..|words[0]|] == words[0]
  {
  }

  /** A rendered message is never blank: it opens with the clipboard heading. */
  lemma MessageNotBlank(rows: seq<Row>, today: int, todayStr: string, isoDate: int -> string)
    requires AllRenderable(rows)
    ensures Strip(MessageBody(rows, today, todayStr, isoDate)) != []
  {
    var h := Heading(todayStr);
    var m := MessageBody(rows, today, todayStr, isoDate);
    JoinStartsWith([h] + Blocks(rows, today, isoDate), "\n\n");
    assert m[0] == h[0] == '\U{1F4CB}';
    StripSpec(m);
  }

  /** When the filter and the renderer read the same date `today`, an assignment that
      passed the filter renders as "Due today" or "Due in ..." (never "Past due!" nor
      "No due date"), and its status is never "checked and handed over". */
  // The literals are parameters pinned by `requires` so that the solver sees them as
  // opaque values in the statement and unfolds their characters only in this proof.
  lemma ActionableRendering(row: Row, today: int, both: string)
    requires Actionable(row, today)
    requires both == "checked and handed over"
    ensures DueRenderable(row)
    ensures var p := DuePhrase(Get(row, "dueDate", Null), today);
      p == "Due today" || p == "Due in 1 day" || p[..7] == "Due in "
    ensures StatusPhrase(row) != both
  {
    var s := StatusPhrase(row);
    if Truthy(Get(row, "checked", Flag(false))) {
      assert s[12] == 'n' && both[12] == 'h';
    } else {
      assert s[0] == 'n' && both[0] == 'c';
    }
  }

  /** A transport reply to one send_message call. */
  datatype SendOutcome = Sent | RetryAfter(seconds: nat) | NetworkError | OtherError

  /** What the delivery loop does to the outside world. */
  datatype Event = Send(chatId: int, text: string) | Sleep(seconds: nat)

  /** The events of delivering one message, the index of the next transport reply, and
      whether the message went through. */
  datatype Delivery = Delivery(events: seq<Event>, next: nat, delivered: bool)

  predicate Transient(o: SendOutcome) {
    o.RetryAfter? || o.NetworkError?
  }

  /** The pause after a transient failure: the delay the server asks for, or the
      fixed delay after a network error. */
  function Pause(o: SendOutcome): nat {
    if o.RetryAfter? then o.seconds else RetryDelaySeconds
  }

  /** The retry loop for one message, from attempt number attempts on; transport(n) is
      the reply to the n-th send of the run. */
  function Deliver(chatId: int, msg: string, transport: nat -> SendOutcome, next: nat, attempts: nat): Delivery
    decreases MaxRetries - attempts
  {
    if attempts >= MaxRetries then Delivery([], next, false)
    else if transport(next) == Sent then Delivery([Send(chatId, msg)], next + 1, true)
    else if transport(next) == OtherError then Delivery([Send(chatId, msg)], next + 1, false)
    else
      var rest := Deliver(chatId, msg, transport, next + 1, attempts + 1);
      Delivery([Send(chatId, msg), Sleep(Pause(transport(next)))] + rest.events, rest.next, rest.delivered)
  }

  /** Delivery from reply next on, after the events already recorded. */
  function Continue(prefix: seq<Event>, chatId: int, msg: string, transport: nat -> SendOutcome, next: nat, attempts: nat): Delivery {
    var rest := Deliver(chatId, msg, transport, next, attempts);
    Delivery(prefix + rest.events, rest.next, rest.delivered)
  }

  lemma ContinueStep(prefix: seq<Event>, chatId: int, msg: string, transport: nat -> SendOutcome, next: nat, attempts: nat)
    requires attempts < MaxRetries
    ensures transport(next) == Sent ==>
      Continue(prefix, chatId, msg, transport, next, attempts) == Delivery(prefix + [Send(chatId, msg)], next + 1, true)
    ensures transport(next) == OtherError ==>
      Continue(prefix, chatId, msg, transport, next, attempts) == Delivery(prefix + [Send(chatId, msg)], next + 1, false)
    ensures Transient(transport(next)) ==>
      Continue(prefix, chatId, msg, transport, next, attempts)
        == Continue(prefix + [Send(chatId, msg)] + [Sleep(Pause(transport(next)))], chatId, msg, transport, next + 1, attempts + 1)
  {
    var rest := Deliver(chatId, msg, transport, next + 1, attempts + 1);
    var s := if transport(next).RetryAfter? then transport(next).seconds else RetryDelaySeconds;
    assert prefix + ([Send(chatId, msg), Sleep(s)] + rest.events) == prefix + [Send(chatId, msg)] + [Sleep(s)] + rest.events;
  }

  /** The delivery loop of send_messages for one message. */
  method SendWithRetry(chatId: int, msg: string, transport: nat -> SendOutcome, start: nat)
    returns (events: seq<Event>, next: nat, sent: bool)
    ensures Delivery(events, next, sent) == Deliver(chatId, msg, transport, start, 0)
  {
    ghost var total := Deliver(chatId, msg, transport, start, 0);
    events := [];
    next := start;
    sent := false;
    var attempts := 0;
    assert total == Continue(events, chatId, msg, transport, next, attempts);
    while !sent && attempts < MaxRetries
      invariant 0 <= attempts <= MaxRetries
      invariant sent ==> total == Delivery(events, next, true)
      invariant !sent ==> total == Continue(events, chatId, msg, transport, next, attempts)
      decreases MaxRetries - attempts
    {
      ContinueStep(events, chatId, msg, transport, next, attempts);
      var outcome := transport(next);
      next := next + 1;
      events := events + [Send(chatId, msg)];
      if outcome == Sent {
        sent := true;
      } else if outcome == OtherError {
        break;
      } else {
        events := events + [Sleep(Pause(outcome))];
      }
      attempts := attempts + 1;
    }
  }

  function CountSends(events: seq<Event>): nat {
    if events == [] then 0 else (if events[0].Send? then 1 else 0) + CountSends(events[1..])
  }

  lemma {:induction false} CountSendsAppend(a: seq<Event>, b: seq<Event>)
    ensures CountSends(a + b) == CountSends(a) + CountSends(b)
  {
    if a != [] {
      assert (a + b)[1..] == a[1..] + b;
      CountSendsAppend(a[1..], b);
    } else {
      assert a + b == b;
    }
  }

  /** At most MaxRetries sends per message, and one transport reply consumed per send. */
  lemma {:induction false} DeliverBounds(chatId: int, msg: string, transport: nat -> SendOutcome, next: nat, attempts: nat)
    requires attempts <= MaxRetries
    ensures var d := Deliver(chatId, msg, transport, next, attempts);
      CountSends(d.events) <= MaxRetries - attempts && d.next == next + CountSends(d.events)
    decreases MaxRetries - attempts
  {
    if attempts < MaxRetries && Transient(transport(next)) {
      var d := Deliver(chatId, msg, transport, next, attempts);
      var rest := Deliver(chatId, msg, transport, next + 1, attempts + 1);
      DeliverBounds(chatId, msg, transport, next + 1, attempts + 1);
      var head := [Send(chatId, msg), Sleep(Pause(transport(next)))];
      assert d.events == head + rest.events && d.next == rest.next;
      CountSendsAppend(head, rest.events);
      assert CountSends(head) == 1;
    }
  }

  /** Every send of a delivery is this message to this chat. */
  lemma {:induction false} DeliverSendsOnly(chatId: int, msg: string, transport: nat -> SendOutcome, next: nat, attempts: nat)
    ensures forall e :: e in Deliver(chatId, msg, transport, next, attempts).events && e.Send? ==> e == Send(chatId, msg)
    decreases MaxRetries - attempts
  {
    if attempts < MaxRetries && Transient(transport(next)) {
      var d := Deliver(chatId, msg, transport, next, attempts);
      var rest := Deliver(chatId, msg, transport, next + 1, attempts + 1);
      DeliverSendsOnly(chatId, msg, transport, next + 1, attempts + 1);
      var head := [Send(chatId, msg), Sleep(Pause(transport(next)))];
      assert d.events == head + rest.events;
      forall e | e in d.events && e.Send? ensures e == Send(chatId, msg) {
        if e !in rest.events {
          assert e in head;
        }
      }
    }
  }

  /** Reply number k is a success and every reply from number next up to it was a
      transient failure. */
  predicate SucceedsAt(transport: nat -> SendOutcome, next: nat, k: nat) {
    transport(k) == Sent && forall j :: next <= j < k ==> Transient(transport(j))
  }

  /** A message goes through exactly when, within the attempts left, some reply is a
      success and every reply before it was a transient failure. */
  lemma {:induction false} DeliveredIff(chatId: int, msg: string, transport: nat -> SendOutcome, next: nat, attempts: nat)
    requires attempts <= MaxRetries
    ensures Deliver(chatId, msg, transport, next, attempts).delivered <==>
      exists k: nat :: next <= k < next + (MaxRetries - attempts) && SucceedsAt(transport, next, k)
    decreases MaxRetries - attempts
  {
    if attempts < MaxRetries {
      DeliveredIff(chatId, msg, transport, next + 1, attempts + 1);
      match transport(next) {
        case Sent =>
          assert SucceedsAt(transport, next, next);
        case OtherError =>
          forall k: nat | next <= k < next + (MaxRetries - attempts)
            ensures !SucceedsAt(transport, next, k)
          {
            if k > next {
              assert !Transient(transport(next));
            }
          }
        case RetryAfter(_) =>
          TransientStep(transport, next, next + 1, attempts);
        case NetworkError =>
          TransientStep(transport, next, next + 1, attempts);
      }
    }
  }

  /** After a transient failure, success from reply next on is success from next + 1 on. */
  lemma TransientStep(transport: nat -> SendOutcome, next: nat, after: nat, attempts: nat)
    requires after == next + 1
    requires attempts < MaxRetries && Transient(transport(next))
    ensures (exists k: nat :: next <= k < next + (MaxRetries - attempts) && SucceedsAt(transport, next, k))
      <==> (exists k: nat :: after <= k < after + (MaxRetries - (attempts + 1)) && SucceedsAt(transport, after, k))
  {
    forall k: nat | after <= k && SucceedsAt(transport, after, k)
      ensures SucceedsAt(transport, next, k)
    {
    }
    forall k: nat | next <= k && SucceedsAt(transport, next, k)
      ensures after <= k && SucceedsAt(transport, after, k)
    {
    }
  }

  /** Rate-limited twice and then accepted: three sends with the two requested sleeps
      in between. */
  lemma RateLimitedTwiceThenSent(chatId: int, msg: string, transport: nat -> SendOutcome, next: nat, t1: nat, t2: nat)
    requires transport(next) == RetryAfter(t1)
    requires transport(next + 1) == RetryAfter(t2)
    requires transport(next + 2) == Sent
    ensures Deliver(chatId, msg, transport, next, 0)
      == Delivery([Send(chatId, msg), Sleep(t1), Send(chatId, msg), Sleep(t2), Send(chatId, msg)], next + 3, true)
  {
    var d2 := Deliver(chatId, msg, transport, next + 2, 2);
    assert d2 == Delivery([Send(chatId, msg)], next + 3, true);
    var d1 := Deliver(chatId, msg, transport, next + 1, 1);
    assert d1 == Delivery([Send(chatId, msg), Sleep(t2)] + d2.events, next + 3, true);
  }

  /** A permanent failure abandons the message after its single send. */
  lemma PermanentFailureStops(chatId: int, msg: string, transport: nat -> SendOutcome, next: nat, attempts: nat)
    requires attempts < MaxRetries
    requires transport(next) == OtherError
    ensures Deliver(chatId, msg, transport, next, attempts) == Delivery([Send(chatId, msg)], next + 1, false)
  {
  }

  /** A transport that keeps failing transiently sees MaxRetries sends, then the loop
      gives up. */
  lemma {:induction false} AlwaysTransientGivesUp(chatId: int, msg: string, transport: nat -> SendOutcome, next: nat, attempts: nat)
    requires attempts <= MaxRetries
    requires forall n: nat :: next <= n < next + (MaxRetries - attempts) ==> Transient(transport(n))
    ensures var d := Deliver(chatId, msg, transport, next, attempts);
      !d.delivered && CountSends(d.events) == MaxRetries - attempts && d.next == next + (MaxRetries - attempts)
    decreases MaxRetries - attempts
  {
    if attempts < MaxRetries {
      assert Transient(transport(next));
      AlwaysTransientGivesUp(chatId, msg, transport, next + 1, attempts + 1);
      var rest := Deliver(chatId, msg, transport, next + 1, attempts + 1);
      var s := Pause(transport(next));
      CountSendsAppend([Send(chatId, msg), Sleep(s)], rest.events);
      assert CountSends([Send(chatId, msg), Sleep(s)]) == 1;
    }
  }

  /** The events and the next reply index of a run of deliveries. */
  datatype Trace = Trace(events: seq<Event>, next: nat)

  /** Every message of one handler, skipping blank ones. */
  function DeliverAll(chatId: int, msgs: seq<string>, transport: nat -> SendOutcome, next: nat): Trace
    decreases |msgs|
  {
    if msgs == [] then Trace([], next)
    else if Strip(msgs[0]) == [] then DeliverAll(chatId, msgs[1..], transport, next)
    else
      var d := Deliver(chatId, msgs[0], transport, next, 0);
      var rest := DeliverAll(chatId, msgs[1..], transport, d.next);
      Trace(d.events + rest.events, rest.next)
  }

  /** The chat id of a handler, as `telegram_ids.get(handler)` with a falsy id skipped. */
  function ChatId(ids: map<string, int>, handler: string): Option<int> {
    if handler in ids && ids[handler] != 0 then Some(ids[handler]) else None
  }

  /** send_messages: every handler with an id, each of its non-blank messages. */
  function SendAll(ids: map<string, int>, messages: Entries<seq<string>>, transport: nat -> SendOutcome, next: nat): Trace
    decreases |messages|
  {
    if messages == [] then Trace([], next)
    else match ChatId(ids, messages[0].0)
      case None => SendAll(ids, messages[1..], transport, next)
      case Some(chatId) =>
        var d := DeliverAll(chatId, messages[0].1, transport, next);
        var rest := SendAll(ids, messages[1..], transport, d.next);
        Trace(d.events + rest.events, rest.next)
  }

  /** A run that continues after the events already recorded. */
  function Resume(prefix: seq<Event>, t: Trace): Trace {
    Trace(prefix + t.events, t.next)
  }

  lemma ResumeAppend(prefix: seq<Event>, mid: seq<Event>, t: Trace)
    ensures Resume(prefix, Trace(mid + t.events, t.next)) == Resume(prefix + mid, t)
  {
    assert prefix + (mid + t.events) == (prefix + mid) + t.events;
  }

  lemma DeliverAllStep(chatId: int, msgs: seq<string>, i: int, transport: nat -> SendOutcome, next: nat)
    requires 0 <= i < |msgs|
    ensures Strip(msgs[i]) == [] ==>
      DeliverAll(chatId, msgs[i..], transport, next) == DeliverAll(chatId, msgs[i + 1..], transport, next)
    ensures Strip(msgs[i]) != [] ==>
      var d := Deliver(chatId, msgs[i], transport, next, 0);
      var rest := DeliverAll(chatId, msgs[i + 1..], transport, d.next);
      DeliverAll(chatId, msgs[i..], transport, next) == Trace(d.events + rest.events, rest.next)
  {
    assert msgs[i..][1..] == msgs[i + 1..];
  }

  lemma SendAllStep(ids: map<string, int>, messages: Entries<seq<string>>, g: int, transport: nat -> SendOutcome, next: nat)
    requires 0 <= g < |messages|
    ensures ChatId(ids, messages[g].0).None? ==>
      SendAll(ids, messages[g..], transport, next) == SendAll(ids, messages[g + 1..], transport, next)
    ensures ChatId(ids, messages[g].0).Some? ==>
      var d := DeliverAll(ChatId(ids, messages[g].0).value, messages[g].1, transport, next);
      var rest := SendAll(ids, messages[g + 1..], transport, d.next);
      SendAll(ids, messages[g..], transport, next) == Trace(d.events + rest.events, rest.next)
  {
    assert messages[g..][1..] == messages[g + 1..];
  }

  /** The message loop of send_messages for one handler. */
  method SendToHandler(chatId: int, msgs: seq<string>, transport: nat -> SendOutcome, start: nat)
    returns (events: seq<Event>, next: nat)
    ensures Trace(events, next) == DeliverAll(chatId, msgs, transport, start)
  {
    ghost var total := DeliverAll(chatId, msgs, transport, start);
    events := [];
    next := start;
    assert total == Resume(events, DeliverAll(chatId, msgs[0..], transport, next)) by {
      assert msgs[0..] == msgs;
    }
    for i := 0 to |msgs|
      invariant total == Resume(events, DeliverAll(chatId, msgs[i..], transport, next))
    {
      var msg := msgs[i];
      DeliverAllStep(chatId, msgs, i, transport, next);
      if Strip(msg) == [] {
        continue;
      }
      var sentEvents, after, sent := SendWithRetry(chatId, msg, transport, next);
      ResumeAppend(events, sentEvents, DeliverAll(chatId, msgs[i + 1..], transport, after));
      events := events + sentEvents;
      next := after;
    }
    assert msgs[|msgs|..] == [];
    assert events + [] == events;
  }

  /** send_messages over the whole messages map; the transport's replies are numbered
      from 0 over the run. */
  method SendMessages(ids: map<string, int>, messages: Entries<seq<string>>, transport: nat -> SendOutcome)
    returns (events: seq<Event>)
    ensures events == SendAll(ids, messages, transport, 0).events
  {
    ghost var total := SendAll(ids, messages, transport, 0);
    events := [];
    var next := 0;
    assert total == Resume(events, SendAll(ids, messages[0..], transport, next)) by {
      assert messages[0..] == messages;
    }
    for g := 0 to |messages|
      invariant total == Resume(events, SendAll(ids, messages[g..], transport, next))
    {
      var (handler, msgs) := messages[g];
      SendAllStep(ids, messages, g, transport, next);
      var telegramId := if handler in ids then Some(ids[handler]) else None;
      if telegramId == None || telegramId == Some(0) {
        assert ChatId(ids, handler) == None;
        continue;
      }
      assert ChatId(ids, handler) == telegramId;
      var sentEvents, after := SendToHandler(telegramId.value, msgs, transport, next);
      ResumeAppend(events, sentEvents, SendAll(ids, messages[g + 1..], transport, after));
      events := events + sentEvents;
      next := after;
    }
    assert messages[|messages|..] == [];
    assert events + [] == events;
  }

  /** Every send of one handler's deliveries goes to its chat with one of its non-blank
      messages. */
  lemma {:induction false} DeliverAllSends(chatId: int, msgs: seq<string>, transport: nat -> SendOutcome, next: nat)
    ensures forall e :: e in DeliverAll(chatId, msgs, transport, next).events && e.Send? ==>
      e.chatId == chatId && e.text in msgs && Strip(e.text) != []
    decreases |msgs|
  {
    if msgs != [] {
      DeliverAllSends(chatId, msgs[1..], transport, next);
      if Strip(msgs[0]) != [] {
        var d := Deliver(chatId, msgs[0], transport, next, 0);
        DeliverSendsOnly(chatId, msgs[0], transport, next, 0);
        DeliverAllSends(chatId, msgs[1..], transport, d.next);
      }
    }
  }

  /** Nothing is sent for a handler without a (truthy) id, nor any blank message: every
      send goes to the id of a listed handler and carries one of its non-blank messages. */
  lemma {:induction false} SendAllSends(ids: map<string, int>, messages: Entries<seq<string>>, transport: nat -> SendOutcome, next: nat)
    ensures forall e :: e in SendAll(ids, messages, transport, next).events && e.Send? ==>
      exists j :: 0 <= j < |messages| && ChatId(ids, messages[j].0) == Some(e.chatId)
        && e.text in messages[j].1 && Strip(e.text) != []
    decreases |messages|
  {
    if messages != [] {
      SendAllSends(ids, messages[1..], transport, next);
      match ChatId(ids, messages[0].0) {
        case None =>
          forall e | e in SendAll(ids, messages, transport, next).events && e.Send?
            ensures exists j :: (0 <= j < |messages| && ChatId(ids, messages[j].0) == Some(e.chatId)
              && e.text in messages[j].1 && Strip(e.text) != [])
          {
            var j :| 0 <= j < |messages| - 1 && ChatId(ids, messages[1..][j].0) == Some(e.chatId)
              && e.text in messages[1..][j].1 && Strip(e.text) != [];
            assert messages[1..][j] == messages[j + 1];
          }
        case Some(chatId) =>
          var d := DeliverAll(chatId, messages[0].1, transport, next);
          DeliverAllSends(chatId, messages[0].1, transport, next);
          SendAllSends(ids, messages[1..], transport, d.next);
          forall e | e in SendAll(ids, messages, transport, next).events && e.Send?
            ensures exists j :: (0 <= j < |messages| && ChatId(ids, messages[j].0) == Some(e.chatId)
              && e.text in messages[j].1 && Strip(e.text) != [])
          {
            if e in d.events {
              assert ChatId(ids, messages[0].0) == Some(e.chatId);
            } else {
              var j :| 0 <= j < |messages| - 1 && ChatId(ids, messages[1..][j].0) == Some(e.chatId)
                && e.text in messages[1..][j].1 && Strip(e.text) != [];
              assert messages[1..][j] == messages[j + 1];
            }
          }
      }
    }
  }

  /** The first attempt always happens: attempts starts at 0 < MAX_RETRIES. */
  lemma DeliverFirstSend(chatId: int, msg: string, transport: nat -> SendOutcome, next: nat)
    ensures Send(chatId, msg) in Deliver(chatId, msg, transport, next, 0).events
  {
  }

  /** Every non-blank message of a handler is sent to its chat at least once. */
  lemma {:induction false} DeliverAllAttempts(chatId: int, msgs: seq<string>, transport: nat -> SendOutcome, next: nat, m: string)
    requires m in msgs && Strip(m) != []
    ensures Send(chatId, m) in DeliverAll(chatId, msgs, transport, next).events
    decreases |msgs|
  {
    if msgs[0] == m {
      DeliverFirstSend(chatId, m, transport, next);
    } else {
      assert m in msgs[1..];
      if Strip(msgs[0]) == [] {
        DeliverAllAttempts(chatId, msgs[1..], transport, next, m);
      } else {
        var d := Deliver(chatId, msgs[0], transport, next, 0);
        DeliverAllAttempts(chatId, msgs[1..], transport, d.next, m);
      }
    }
  }

  /** The converse of SendAllSends: every non-blank message of every handler with a
      (truthy) id is sent to that id at least once. */
  lemma {:induction false} SendAllAttempts(ids: map<string, int>, messages: Entries<seq<string>>, transport: nat -> SendOutcome, next: nat, j: int, m: string)
    requires 0 <= j < |messages| && ChatId(ids, messages[j].0).Some?
    requires m in messages[j].1 && Strip(m) != []
    ensures Send(ChatId(ids, messages[j].0).value, m) in SendAll(ids, messages, transport, next).events
    decreases |messages|
  {
    if j == 0 {
      DeliverAllAttempts(ChatId(ids, messages[0].0).value, messages[0].1, transport, next, m);
    } else {
      assert messages[1..][j - 1] == messages[j];
      match ChatId(ids, messages[0].0) {
        case None =>
          SendAllAttempts(ids, messages[1..], transport, next, j - 1, m);
        case Some(chatId) =>
          var d := DeliverAll(chatId, messages[0].1, transport, next);
          SendAllAttempts(ids, messages[1..], transport, d.next, j - 1, m);
      }
    }
  }
}
