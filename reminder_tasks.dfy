/** The reminder side of the bot (reminder_tasks.py): reading the event time
    out of a segment, the row of "Mint N" buttons under an announcement, what
    a button press does to the reminder table, and the periodic check that
    sends the due reminders by direct message.

    Clocks and Discord are parameters here: the current instant is an
    integer number of epoch seconds handed to the check, and sending a
    direct message is an oracle `deliver` that reports what `user.send`
    did. */
module ReminderTasks {
  import opened Wrappers
  import opened PyStr
  import opened Models
  import opened ReminderStore

  // ---------------------------------------------------------------------------
  // extract_event_time: the first match of `<t:(\d+):F>`

  const TagOpen: string := "<t:"
  const TagClose: string := ":F>"

  /** `w` is one whole match of `<t:(\d+):F>`: the opening, at least one
      digit, the closing. */
  predicate IsTimestampTag(w: string) {
    |w| >= 7 && w[..3] == TagOpen && w[|w| - 3..] == TagClose && AllDigits(w[3..|w| - 3])
  }

  /** A timestamp tag occupies `s[i..j]`. */
  predicate TagAt(s: string, i: int, j: int) {
    0 <= i <= j <= |s| && IsTimestampTag(s[i..j])
  }

  ghost predicate ContainsTag(s: string) {
    exists i, j :: TagAt(s, i, j)
  }

  /** The end of the timestamp tag that starts `s`, if one does. The digit
      run is greedy and must be followed by `:F>`, so there is at most one. */
  function TagAtHead(s: string): (r: Option<nat>)
    ensures r.Some? ==> 7 <= r.value <= |s| && AllDigits(s[3..r.value - 3])
  {
    if |s| >= 3 && s[..3] == TagOpen then
      var d := DigitRun(s[3..]);
      assert s[3..][..d] == s[3..3 + d];
      if d >= 1 && 6 + d <= |s| && s[3 + d..6 + d] == TagClose then Some(6 + d) else None
    else None
  }

  /** `extract_event_time(text)`: the seconds of the first tag, or None. */
  function ExtractEventTime(text: string): Option<nat>
    decreases |text|
  {
    if |text| == 0 then None
    else match TagAtHead(text)
      case Some(j) => Some(DigitsValue(text[3..j - 3]))
      case None => ExtractEventTime(text[1..])
  }

  /** What `TagAtHead` reports is a tag. */
  lemma TagAtHeadFound(s: string)
    requires TagAtHead(s).Some?
    ensures TagAt(s, 0, TagAtHead(s).value)
  {
    var j := TagAtHead(s).value;
    var w := s[0..j];
    assert w[..3] == s[..3];
    assert w[|w| - 3..] == s[j - 3..j];
    assert w[3..|w| - 3] == s[3..j - 3];
  }

  /** A tag at the head of `s` is the one `TagAtHead` reports. */
  lemma TagAtHeadShape(s: string, j: int)
    requires TagAt(s, 0, j)
    ensures TagAtHead(s) == Some(j)
  {
    var w := s[0..j];
    assert s[..3] == w[..3];
    assert s[3..][..j - 6] == w[3..|w| - 3];
    assert s[3..][j - 6] == w[|w| - 3..][0];
    DigitRunIs(s[3..], j - 6);
    assert s[j - 3..j] == w[|w| - 3..];
  }

  /** No character inside a tag but the first is `<`: tags cannot overlap a
      `<` that starts another one. */
  lemma NoInnerOpen(w: string, k: int)
    requires IsTimestampTag(w) && 0 < k < |w|
    ensures w[k] != '<'
  {
    if k < 3 {
      assert w[k] == w[..3][k];
    } else if k >= |w| - 3 {
      assert w[k] == w[|w| - 3..][k - (|w| - 3)];
    } else {
      assert w[k] == w[3..|w| - 3][k - 3];
    }
  }

  /** A tag in `s[1..]` is a tag in `s`, one position later, and back. */
  lemma TagAtShift(s: string, i: int, j: int)
    requires 1 <= i <= j <= |s|
    ensures TagAt(s, i, j) <==> TagAt(s[1..], i - 1, j - 1)
  {
    assert s[1..][i - 1..j - 1] == s[i..j];
  }

  /** A tag in a prefix is a tag in the whole. */
  lemma TagInPrefix(s: string, n: int, i: int, j: int)
    requires 0 <= j <= n <= |s|
    ensures TagAt(s[..n], i, j) <==> TagAt(s, i, j)
  {
    if 0 <= i <= j {
      assert s[..n][i..j] == s[i..j];
    }
  }

  /** `extract_event_time` returns None exactly when the text holds no tag. */
  lemma {:induction false} ExtractNone(text: string)
    ensures ExtractEventTime(text).None? <==> !ContainsTag(text)
    decreases |text|
  {
    if |text| == 0 {
    } else if TagAtHead(text).Some? {
      TagAtHeadFound(text);
    } else {
      ExtractNone(text[1..]);
      if ContainsTag(text) {
        var i, j :| TagAt(text, i, j);
        if i == 0 {
          TagAtHeadShape(text, j);
        } else {
          TagAtShift(text, i, j);
        }
      }
      if ContainsTag(text[1..]) {
        var i, j :| TagAt(text[1..], i, j);
        TagAtShift(text, i + 1, j + 1);
      }
    }
  }

  /** The text `<t:DIGITS:F>`. */
  function TimestampTag(digits: string): string {
    TagOpen + digits + TagClose
  }

  /** A tag at the head of `pre + rest` either lies inside `pre` or runs
      over the first character of `rest`, which then is not `<`. */
  lemma HeadTagPlacement(pre: string, rest: string)
    requires |pre| > 0 && TagAtHead(pre + rest).Some?
    ensures ContainsTag(pre) || (|rest| > 0 && rest[0] != '<')
  {
    var s := pre + rest;
    var j := TagAtHead(s).value;
    TagAtHeadFound(s);
    if j <= |pre| {
      assert s[..|pre|] == pre;
      TagInPrefix(s, |pre|, 0, j);
    } else {
      NoInnerOpen(s[0..j], |pre|);
      assert s[0..j][|pre|] == rest[0];
    }
  }

  /** The tag `<t:DIGITS:F>` at the head of a text is what `TagAtHead`
      finds, and its digits are the value read. */
  lemma TagAtHeadOfTag(digits: string, post: string)
    requires |digits| >= 1 && AllDigits(digits)
    ensures var tag := TimestampTag(digits);
      var s := tag + post;
      TagAtHead(s) == Some(|tag|) && s[3..|tag| - 3] == digits
  {
    var tag := TimestampTag(digits);
    var s := tag + post;
    assert s[0..|tag|] == tag;
    assert tag[..3] == TagOpen && tag[|tag| - 3..] == TagClose && tag[3..|tag| - 3] == digits;
    TagAtHeadShape(s, |tag|);
  }

  /** The first tag wins: whatever follows it, `extract_event_time` returns
      the value of the first tag's digits (leading zeros allowed). With
      `ExtractNone`, this pins the result down on every input. */
  lemma {:induction false} ExtractFirstTag(pre: string, digits: string, post: string)
    requires |digits| >= 1 && AllDigits(digits) && !ContainsTag(pre)
    ensures ExtractEventTime(pre + TimestampTag(digits) + post) == Some(DigitsValue(digits))
    decreases |pre|
  {
    var tag := TimestampTag(digits);
    var s := pre + tag + post;
    if |pre| == 0 {
      assert s == tag + post;
      TagAtHeadOfTag(digits, post);
    } else {
      assert s == pre + (tag + post) && (tag + post)[0] == '<';
      if TagAtHead(s).Some? {
        HeadTagPlacement(pre, tag + post);
        assert false;
      }
      assert s[1..] == pre[1..] + tag + post;
      if ContainsTag(pre[1..]) {
        var i, j :| TagAt(pre[1..], i, j);
        TagAtShift(pre, i + 1, j + 1);
      }
      ExtractFirstTag(pre[1..], digits, post);
    }
  }

  /** Reading back a tag written with `str(n)` gives `n`. */
  lemma ExtractFormatted(n: nat)
    ensures ExtractEventTime(TimestampTag(NatToString(n))) == Some(n)
  {
    assert !ContainsTag([]);
    ExtractFirstTag([], NatToString(n), []);
    assert [] + TimestampTag(NatToString(n)) + [] == TimestampTag(NatToString(n));
    DigitsValueOfNatToString(n);
  }

  /** Every tag ends in the style letter `F` and `>`. */
  lemma TagsEndInStyle(s: string)
    ensures forall i, j :: TagAt(s, i, j) ==> s[j - 2] == 'F'
  {
    forall i, j | TagAt(s, i, j) ensures s[j - 2] == 'F' {
      var w := s[i..j];
      assert w[|w| - 3..][1] == s[j - 2];
    }
  }

  /** Only the full-date style `:F` is recognised: a text without the letter
      `F` has no event time. */
  lemma NoStyleLetter(text: string)
    requires forall k :: 0 <= k < |text| ==> text[k] != 'F'
    ensures ExtractEventTime(text) == None
  {
    TagsEndInStyle(text);
    ExtractNone(text);
  }

  /** A relative-time tag such as `<t:123:R>` is not an event time. */
  lemma RelativeStyleIgnored()
    ensures ExtractEventTime("<t:123:R>") == None
  {
    NoStyleLetter("<t:123:R>");
  }

  // ---------------------------------------------------------------------------
  // ReminderButton and ReminderView

  /** What the bot answers when a button is pressed. `ReminderSet` carries
      the instant shown to the user, thirty minutes before the event. */
  datatype Reply = NoReply | AlreadySet | ReminderSet(shownTime: int)

  /** The parts of a Discord interaction the callback reads. */
  datatype Interaction = Interaction(userId: nat, guildId: nat, channelId: nat, messageId: nat)

  /** What one press does: the reply and the reminder rows afterwards. */
  datatype PressOutcome = PressOutcome(reply: Reply, rows: seq<Reminder>)

  /** How long before the event a reminder is due, in seconds. */
  const ReminderLead: int := 1800

  /** `ReminderButton(label, custom_id, event_text)`. */
  datatype Button = Button(caption: string, customId: string, eventText: string)
  {
    /** `ReminderButton.callback`: a reminder is added unless the user
        already has one for this button; a text without an event time is
        ignored. */
    method Callback(it: Interaction, store: Store) returns (reply: Reply)
      requires store.Valid()
      modifies store
      ensures store.Valid()
      ensures PressOutcome(reply, store.rows) == Press(old(store.rows), old(store.nextId), this, it)
      ensures store.nextId == old(store.nextId) + (if reply.ReminderSet? then 1 else 0)
    {
      var eventTime := ExtractEventTime(eventText);
      if eventTime.Some? {
        var exists_ := store.ReminderExists(it.userId, customId);
        if exists_ {
          reply := AlreadySet;
        } else {
          store.AddReminder(it.userId, customId, eventTime.value, it.guildId, it.channelId, it.messageId);
          reply := ReminderSet(eventTime.value - ReminderLead);
        }
      } else {
        reply := NoReply;
      }
    }
  }

  /** The row `add_reminder` inserts for a press. */
  function NewRow(id: nat, b: Button, it: Interaction, eventTime: int): Reminder {
    Reminder(id, it.userId, b.customId, eventTime, Pending, it.guildId, it.channelId, it.messageId)
  }

  /** The effect of one press on the rows, with `nextId` the key the
      insert would take. */
  function Press(rows: seq<Reminder>, nextId: nat, b: Button, it: Interaction): PressOutcome {
    match ExtractEventTime(b.eventText)
    case None => PressOutcome(NoReply, rows)
    case Some(t) =>
      if HasReminder(rows, it.userId, b.customId) then PressOutcome(AlreadySet, rows)
      else PressOutcome(ReminderSet(t - ReminderLead), rows + [NewRow(nextId, b, it, t)])
  }

  /** The i-th button (from 0) of a view. */
  function ButtonFor(i: nat, text: string): Button {
    Button("Mint " + NatToString(i + 1), "reminder_" + NatToString(i + 1), text)
  }

  /** The buttons `ReminderView(texts)` adds, in list order. */
  function ButtonsFor(texts: seq<string>): (r: seq<Button>)
    ensures |r| == |texts|
  {
    seq(|texts|, i requires 0 <= i < |texts| => ButtonFor(i, texts[i]))
  }

  lemma ButtonsForSnoc(texts: seq<string>, i: int)
    requires 0 <= i < |texts|
    ensures ButtonsFor(texts[..i + 1]) == ButtonsFor(texts[..i]) + [ButtonFor(i, texts[i])]
  {
    var a := ButtonsFor(texts[..i + 1]);
    var b := ButtonsFor(texts[..i]) + [ButtonFor(i, texts[i])];
    assert |a| == |b|;
    forall k | 0 <= k < |a| ensures a[k] == b[k] {
      assert texts[..i + 1][k] == texts[k];
      if k < i {
        assert texts[..i][k] == texts[k];
      }
    }
  }

  /** `ReminderView(event_texts)`: one button per eligible text, added in
      order. */
  class ReminderView {
    var children: seq<Button>

    constructor (eventTexts: seq<string>)
      ensures children == ButtonsFor(eventTexts)
    {
      children := [];
      new;
      for i := 0 to |eventTexts|
        invariant children == ButtonsFor(eventTexts[..i])
      {
        ButtonsForSnoc(eventTexts, i);
        AddItem(ButtonFor(i, eventTexts[i]));
      }
      assert eventTexts[..|eventTexts|] == eventTexts;
    }

    /** `View.add_item`. */
    method AddItem(b: Button)
      modifies this
      ensures children == old(children) + [b]
    {
      children := children + [b];
    }
  }

  /** The buttons are numbered by position: the i-th carries its text, and
      both its label `Mint N` and its id `reminder_N` read back as i + 1. */
  lemma ButtonNumbering(texts: seq<string>, i: int)
    requires 0 <= i < |texts|
    ensures var b := ButtonsFor(texts)[i];
      && b.eventText == texts[i]
      && b.caption[..5] == "Mint " && AllDigits(b.caption[5..]) && DigitsValue(b.caption[5..]) == i + 1
      && b.customId[..9] == "reminder_" && AllDigits(b.customId[9..]) && DigitsValue(b.customId[9..]) == i + 1
  {
    var b := ButtonsFor(texts)[i];
    assert b.caption[5..] == NatToString(i + 1);
    assert b.customId[9..] == NatToString(i + 1);
    DigitsValueOfNatToString(i + 1);
  }

  /** No two buttons of a view share a custom id. */
  lemma ButtonIdsDistinct(texts: seq<string>, i: int, j: int)
    requires 0 <= i < j < |texts|
    ensures ButtonsFor(texts)[i].customId != ButtonsFor(texts)[j].customId
  {
    var bs := ButtonsFor(texts);
    if bs[i].customId == bs[j].customId {
      assert bs[i].customId[9..] == NatToString(i + 1);
      assert bs[j].customId[9..] == NatToString(j + 1);
      NatToStringInjective(i + 1, j + 1);
    }
  }

  // ---------------------------------------------------------------------------
  // Properties of a press

  /** At most one row per (user, custom id). */
  predicate OnePerUserAndButton(rows: seq<Reminder>) {
    forall i, j :: 0 <= i < j < |rows| ==>
      rows[i].userId != rows[j].userId || rows[i].customId != rows[j].customId
  }

  /** What a press does, read off its outcome: nothing at all without an
      event time; otherwise the user ends up with a reminder for the button,
      and a row is added (at the end, with the interaction's ids, the button's
      id and the event time itself) exactly when the reply says it was set,
      thirty minutes before that time. */
  lemma PressEffect(rows: seq<Reminder>, nextId: nat, b: Button, it: Interaction)
    ensures var o := Press(rows, nextId, b, it);
      && (ExtractEventTime(b.eventText).None? <==> o.reply.NoReply?)
      && (o.reply.NoReply? ==> o.rows == rows)
      && (o.reply.AlreadySet? <==> ExtractEventTime(b.eventText).Some? && HasReminder(rows, it.userId, b.customId))
      && (o.reply.AlreadySet? ==> o.rows == rows)
      && (ExtractEventTime(b.eventText).Some? ==> HasReminder(o.rows, it.userId, b.customId))
      && (o.reply.ReminderSet? ==>
            var t := ExtractEventTime(b.eventText).value;
            o.rows == rows + [NewRow(nextId, b, it, t)] && o.reply.shownTime + ReminderLead == t)
  {
    var o := Press(rows, nextId, b, it);
    if o.reply.ReminderSet? {
      assert o.rows[|rows|].userId == it.userId && o.rows[|rows|].customId == b.customId;
    }
  }

  /** A press keeps "at most one row per (user, custom id)". */
  lemma PressKeepsOnePerUser(rows: seq<Reminder>, nextId: nat, b: Button, it: Interaction)
    requires OnePerUserAndButton(rows)
    ensures OnePerUserAndButton(Press(rows, nextId, b, it).rows)
  {
    var o := Press(rows, nextId, b, it);
  }

  /** The same user pressing the same button again changes nothing and is
      told the reminder is already set (or, without an event time, gets no
      reply either time). */
  lemma PressTwice(rows: seq<Reminder>, nextId: nat, nextId2: nat, b: Button, it: Interaction)
    ensures var o := Press(rows, nextId, b, it);
      Press(o.rows, nextId2, b, it) == PressOutcome(if o.reply.NoReply? then NoReply else AlreadySet, o.rows)
  {
    PressEffect(rows, nextId, b, it);
  }

  /** The rows after a sequence of presses handled one after another, each
      insert taking the next key. */
  function Presses(rows: seq<Reminder>, nextId: nat, presses: seq<(Button, Interaction)>): seq<Reminder>
    decreases |presses|
  {
    if |presses| == 0 then rows
    else
      var o := Press(rows, nextId, presses[0].0, presses[0].1);
      Presses(o.rows, if o.reply.ReminderSet? then nextId + 1 else nextId, presses[1..])
  }

  /** Handled one at a time, presses never give a user two reminders for
      the same button. */
  lemma {:induction false} PressesKeepOnePerUser(rows: seq<Reminder>, nextId: nat, presses: seq<(Button, Interaction)>)
    requires OnePerUserAndButton(rows)
    ensures OnePerUserAndButton(Presses(rows, nextId, presses))
    decreases |presses|
  {
    if |presses| > 0 {
      var o := Press(rows, nextId, presses[0].0, presses[0].1);
      PressKeepsOnePerUser(rows, nextId, presses[0].0, presses[0].1);
      PressesKeepOnePerUser(o.rows, if o.reply.ReminderSet? then nextId + 1 else nextId, presses[1..]);
    }
  }

  // ---------------------------------------------------------------------------
  // reminder_check

  /** What `user.send` did: returned a message, returned nothing, or raised
      (the user lookup failing included). */
  datatype SendResult = Delivered | NoMessage | Raised

  /** The link to the announcement a reminder was set from. */
  function MessageLink(r: Reminder): string {
    "https://discord.com/channels/" + NatToString(r.guildId) + "/" + NatToString(r.channelId)
      + "/" + NatToString(r.messageId)
  }

  /** The direct message sent for a due reminder. */
  function DmText(r: Reminder): string {
    "\U{A1}Remember the mint " + r.customId + " from your reminder at " + MessageLink(r) + "!"
  }

  /** Still pending, and the event is at most thirty minutes away but not
      yet begun. */
  predicate IsDue(r: Reminder, now: int) {
    0 < r.eventTime - now <= ReminderLead && r.status == Pending
  }

  /** The reminder is due and its message was delivered. */
  predicate Fires(r: Reminder, now: int, deliver: (nat, string) -> SendResult) {
    IsDue(r, now) && deliver(r.userId, DmText(r)) == Delivered
  }

  /** The rows after handling the reminders `todo` in order: a reminder
      whose message was delivered is marked `'notified'` by its key. */
  function CheckRows(rows: seq<Reminder>, todo: seq<Reminder>, now: int, deliver: (nat, string) -> SendResult): (r: seq<Reminder>)
    ensures |r| == |rows|
    decreases |todo|
  {
    if |todo| == 0 then rows
    else
      var prev := CheckRows(rows, todo[..|todo| - 1], now, deliver);
      var x := todo[|todo| - 1];
      if Fires(x, now, deliver) then SetStatus(prev, x.id, Notified) else prev
  }

  /** The recipient and text of the message for `r`. */
  function AttemptFor(r: Reminder): (nat, string) {
    (r.userId, DmText(r))
  }

  /** The (user, text) pairs a send is attempted for, in order. */
  function Attempts(todo: seq<Reminder>, now: int): (r: seq<(nat, string)>)
    ensures |r| <= |todo|
    decreases |todo|
  {
    if |todo| == 0 then []
    else
      var x := todo[|todo| - 1];
      Attempts(todo[..|todo| - 1], now) + (if IsDue(x, now) then [AttemptFor(x)] else [])
  }

  /** Handling one more reminder. */
  lemma CheckStep(rows: seq<Reminder>, todo: seq<Reminder>, k: int, now: int, deliver: (nat, string) -> SendResult)
    requires 0 <= k < |todo|
    ensures var prev := CheckRows(rows, todo[..k], now, deliver);
      CheckRows(rows, todo[..k + 1], now, deliver)
        == if Fires(todo[k], now, deliver) then SetStatus(prev, todo[k].id, Notified) else prev
    ensures Attempts(todo[..k + 1], now)
      == Attempts(todo[..k], now) + (if IsDue(todo[k], now) then [AttemptFor(todo[k])] else [])
  {
    assert todo[..k + 1][..k] == todo[..k];
    assert todo[..k + 1][k] == todo[k];
  }

  /** One tick of `reminder_check` at the instant `now`. Returns the sends
      it attempted. */
  method ReminderCheck(store: Store, now: int, deliver: (nat, string) -> SendResult)
    returns (attempts: seq<(nat, string)>)
    requires store.Valid()
    modifies store
    ensures store.Valid() && store.nextId == old(store.nextId)
    ensures store.rows == CheckRows(old(store.rows), PendingOf(old(store.rows)), now, deliver)
    ensures attempts == Attempts(PendingOf(old(store.rows)), now)
  {
    var reminders := store.PendingReminders();
    attempts := [];
    for k := 0 to |reminders|
      invariant store.Valid() && store.nextId == old(store.nextId)
      invariant store.rows == CheckRows(old(store.rows), reminders[..k], now, deliver)
      invariant attempts == Attempts(reminders[..k], now)
    {
      var r := reminders[k];
      CheckStep(old(store.rows), reminders, k, now, deliver);
      if 0 < r.eventTime - now <= ReminderLead && r.status == Pending {
        var content := DmText(r);
        attempts := attempts + [(r.userId, content)];
        var result := deliver(r.userId, content);
        if result == Delivered {
          store.UpdateReminderStatus(r.id, Notified);
        }
      }
    }
    assert reminders[..|reminders|] == reminders;
  }

  /** Some reminder in `todo` with key `id` fired. */
  ghost predicate FiredFor(todo: seq<Reminder>, id: nat, now: int, deliver: (nat, string) -> SendResult) {
    exists k :: 0 <= k < |todo| && todo[k].id == id && Fires(todo[k], now, deliver)
  }

  /** Row by row: a row ends up `'notified'` exactly when some handled
      reminder with its key fired; nothing else about it changes. */
  lemma {:induction false} CheckRowsAt(rows: seq<Reminder>, todo: seq<Reminder>, now: int, deliver: (nat, string) -> SendResult, i: int)
    requires 0 <= i < |rows|
    ensures CheckRows(rows, todo, now, deliver)[i]
      == if FiredFor(todo, rows[i].id, now, deliver) then rows[i].(status := Notified) else rows[i]
    decreases |todo|
  {
    if |todo| > 0 {
      var init := todo[..|todo| - 1];
      var x := todo[|todo| - 1];
      CheckRowsAt(rows, init, now, deliver, i);
      FiredForSnoc(todo, rows[i].id, now, deliver);
    }
  }

  /** One more reminder handled: it fired, or an earlier one did. */
  lemma FiredForSnoc(todo: seq<Reminder>, id: nat, now: int, deliver: (nat, string) -> SendResult)
    requires |todo| > 0
    ensures var x := todo[|todo| - 1];
      FiredFor(todo, id, now, deliver) <==>
        FiredFor(todo[..|todo| - 1], id, now, deliver) || (x.id == id && Fires(x, now, deliver))
  {
    var init := todo[..|todo| - 1];
    if FiredFor(init, id, now, deliver) {
      var k :| 0 <= k < |init| && init[k].id == id && Fires(init[k], now, deliver);
      assert todo[k] == init[k];
    }
    if FiredFor(todo, id, now, deliver) {
      var k :| 0 <= k < |todo| && todo[k].id == id && Fires(todo[k], now, deliver);
      if k < |todo| - 1 {
        assert init[k] == todo[k];
      }
    }
  }

  /** The outcome of one tick for each row of the table: it is marked
      `'notified'` exactly when it was pending, due at `now` and its message
      was delivered; otherwise (not due, no message, an exception) it is left
      as it was, whatever happened to the other rows. */
  lemma CheckOutcome(rows: seq<Reminder>, now: int, deliver: (nat, string) -> SendResult, i: int)
    requires DistinctIds(rows) && 0 <= i < |rows|
    ensures CheckRows(rows, PendingOf(rows), now, deliver)[i]
      == if Fires(rows[i], now, deliver) then rows[i].(status := Notified) else rows[i]
  {
    var todo := PendingOf(rows);
    CheckRowsAt(rows, todo, now, deliver, i);
    if Fires(rows[i], now, deliver) {
      PendingFires(rows, now, deliver, i);
    }
    if FiredFor(todo, rows[i].id, now, deliver) {
      FiredIsRow(rows, now, deliver, i);
    }
  }

  /** A row that fires is among the pending rows handled. */
  lemma PendingFires(rows: seq<Reminder>, now: int, deliver: (nat, string) -> SendResult, i: int)
    requires 0 <= i < |rows| && Fires(rows[i], now, deliver)
    ensures FiredFor(PendingOf(rows), rows[i].id, now, deliver)
  {
    var todo := PendingOf(rows);
    assert rows[i] in todo;
    var k :| 0 <= k < |todo| && todo[k] == rows[i];
  }

  /** With distinct keys, the pending reminder that fired for the key of
      row `i` is row `i` itself. */
  lemma FiredIsRow(rows: seq<Reminder>, now: int, deliver: (nat, string) -> SendResult, i: int)
    requires DistinctIds(rows) && 0 <= i < |rows|
    requires FiredFor(PendingOf(rows), rows[i].id, now, deliver)
    ensures Fires(rows[i], now, deliver)
  {
    var todo := PendingOf(rows);
    var k :| 0 <= k < |todo| && todo[k].id == rows[i].id && Fires(todo[k], now, deliver);
    var j := PendingIndex(rows, k);
    SameIdSameRow(rows, i, j);
  }

  /** A reminder notified by one tick is never due again, so it is sent at
      most once. */
  lemma NotifiedOnce(rows: seq<Reminder>, now: int, deliver: (nat, string) -> SendResult, i: int, later: int)
    requires DistinctIds(rows) && 0 <= i < |rows| && Fires(rows[i], now, deliver)
    ensures !IsDue(CheckRows(rows, PendingOf(rows), now, deliver)[i], later)
  {
    CheckOutcome(rows, now, deliver, i);
  }

  /** A send is attempted for exactly the due rows of the table, in table
      order: fetching only the pending rows first changes nothing. */
  lemma {:induction false} AttemptsOfPending(rows: seq<Reminder>, now: int)
    ensures Attempts(PendingOf(rows), now) == Attempts(rows, now)
    decreases |rows|
  {
    if |rows| > 0 {
      var init := rows[..|rows| - 1];
      var x := rows[|rows| - 1];
      AttemptsOfPending(init, now);
      var p := PendingOf(init);
      if x.status == Pending {
        assert PendingOf(rows) == p + [x];
        assert (p + [x])[..|p|] == p;
      }
    }
  }

  /** Some due reminder handled has `a` as its recipient and text. */
  ghost predicate AttemptedFor(todo: seq<Reminder>, now: int, a: (nat, string)) {
    exists k :: 0 <= k < |todo| && DueWith(todo[k], now, a)
  }

  /** The reminder is due and `a` is its recipient and text. */
  predicate DueWith(r: Reminder, now: int, a: (nat, string)) {
    IsDue(r, now) && AttemptFor(r) == a
  }

  /** A pair is attempted exactly when it is the user and text of some due
      reminder handled. */
  lemma {:induction false} AttemptsMembers(todo: seq<Reminder>, now: int, a: (nat, string))
    ensures a in Attempts(todo, now) <==> AttemptedFor(todo, now, a)
    decreases |todo|
  {
    if |todo| > 0 {
      var init := todo[..|todo| - 1];
      var x := todo[|todo| - 1];
      AttemptsMembers(init, now, a);
      var tail := if IsDue(x, now) then [AttemptFor(x)] else [];
      assert Attempts(todo, now) == Attempts(init, now) + tail;
      assert a in Attempts(todo, now) <==> a in Attempts(init, now) || a in tail;
      AttemptedForSnoc(todo, now, a);
    }
  }

  /** One more reminder handled: it was attempted, or an earlier one was. */
  lemma AttemptedForSnoc(todo: seq<Reminder>, now: int, a: (nat, string))
    requires |todo| > 0
    ensures AttemptedFor(todo, now, a) <==>
      AttemptedFor(todo[..|todo| - 1], now, a) || DueWith(todo[|todo| - 1], now, a)
  {
    if AttemptedFor(todo[..|todo| - 1], now, a) {
      AttemptedForPrefix(todo, now, a);
    }
    if AttemptedFor(todo, now, a) {
      AttemptedForSplit(todo, now, a);
    }
  }

  lemma AttemptedForPrefix(todo: seq<Reminder>, now: int, a: (nat, string))
    requires |todo| > 0 && AttemptedFor(todo[..|todo| - 1], now, a)
    ensures AttemptedFor(todo, now, a)
  {
    var init := todo[..|todo| - 1];
    var k :| 0 <= k < |init| && DueWith(init[k], now, a);
    assert todo[k] == init[k];
  }

  lemma AttemptedForSplit(todo: seq<Reminder>, now: int, a: (nat, string))
    requires |todo| > 0 && AttemptedFor(todo, now, a)
    ensures AttemptedFor(todo[..|todo| - 1], now, a) || DueWith(todo[|todo| - 1], now, a)
  {
    var init := todo[..|todo| - 1];
    var k :| 0 <= k < |todo| && DueWith(todo[k], now, a);
    if k < |init| {
      assert init[k] == todo[k];
    } else {
      assert k == |todo| - 1;
    }
  }
}
