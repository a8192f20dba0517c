/**
 The repeater detail popup: one fetch sends four updates through a bounded
 channel, logging in and out around them, and the popup folds in whatever
 arrives for the contact it shows.
 */
module RepeaterDetail {
  import opened Sequences
  import opened Wrappers

  datatype Category = Status | Telemetry | Neighbours | Regions

  datatype Result = Ok(data: int) | Err(message: string)

  datatype Update = Update(category: Category, result: Result)

  const ORDER: seq<Category> := [Status, Telemetry, Neighbours, Regions]

  const CHANNEL_CAPACITY := 4

  // ----- the fetch

  /** What the mesh task does towards the node and the requesting client. */
  datatype Action = Login(ok: bool) | Send(update: Update) | Logout

  /** How the node answers during one fetch; `password` is the configured one. */
  datatype Answers = Answers(
    registered: bool, password: Option<string>, loginOk: bool,
    status: Result, telemetry: Result, neighbours: Result, regions: Result)

  function Categories(us: seq<Update>): seq<Category> {
    seq(|us|, i requires 0 <= i < |us| => us[i].category)
  }

  /** One failed update per category, all with the same message. */
  function AllFailed(message: string): seq<Update> {
    [Update(Status, Err(message)), Update(Telemetry, Err(message)),
     Update(Neighbours, Err(message)), Update(Regions, Err(message))]
  }

  function AllAnswered(a: Answers): seq<Update> {
    [Update(Status, a.status), Update(Telemetry, a.telemetry),
     Update(Neighbours, a.neighbours), Update(Regions, a.regions)]
  }

  /** What the client is told. */
  function Updates(a: Answers): seq<Update> {
    if !a.registered then AllFailed("not registered as a contact on this node")
    else if a.password.Some? && !a.loginOk then AllFailed("login failed")
    else AllAnswered(a)
  }

  function AsSends(us: seq<Update>): seq<Action> {
    seq(|us|, i requires 0 <= i < |us| => Send(us[i]))
  }

  /** Does the fetch open a session on the node? */
  predicate LogsIn(a: Answers) {
    a.registered && a.loginOk
  }

  /** The whole fetch, action by action. */
  method RequestRepeaterDetail(a: Answers) returns (trace: seq<Action>)
    ensures trace == (if a.registered then [Login(a.loginOk)] else []) + AsSends(Updates(a))
                     + (if LogsIn(a) then [Logout] else [])
  {
    if !a.registered {
      trace := AsSends(Updates(a));
      return;
    }
    // A missing password is tried as the empty guest password, whose refusal is ignored.
    trace := [Login(a.loginOk)];
    if a.password.Some? && !a.loginOk {
      trace := trace + AsSends(Updates(a));
      return;
    }
    trace := trace + [Send(Update(Status, a.status))];
    trace := trace + [Send(Update(Telemetry, a.telemetry))];
    trace := trace + [Send(Update(Neighbours, a.neighbours))];
    trace := trace + [Send(Update(Regions, a.regions))];
    assert trace == [Login(a.loginOk)] + AsSends(AllAnswered(a));
    if a.loginOk {
      trace := trace + [Logout];
    }
  }

  /** What the node answers about one category. */
  function AnswerFor(a: Answers, c: Category): Result {
    match c
    case Status => a.status
    case Telemetry => a.telemetry
    case Neighbours => a.neighbours
    case Regions => a.regions
  }

  /** Every path tells the client exactly one thing per category, in the fixed
      order: that category's own answer, or the one failure of every category when
      the contact is not registered or its configured password is refused. */
  lemma FourUpdatesInOrder(a: Answers)
    ensures var us := Updates(a);
            && |us| == 4 && us[0].category == Status && us[1].category == Telemetry
            && us[2].category == Neighbours && us[3].category == Regions
            && forall i :: 0 <= i < 4 ==>
                 us[i].result == if !a.registered then Err("not registered as a contact on this node")
                                 else if a.password.Some? && !a.loginOk then Err("login failed")
                                 else AnswerFor(a, us[i].category)
  {
  }

  /** A session is opened exactly when the node accepts the login, before the
      first update, and closed exactly once in that case, after the fourth. */
  method SessionBracketsFetch(a: Answers) returns (trace: seq<Action>)
    ensures Login(true) in trace <==> a.registered && a.loginOk
    ensures Logout in trace <==> a.registered && a.loginOk
    ensures a.registered && a.loginOk ==>
              trace == [Login(true), Send(Update(Status, a.status)), Send(Update(Telemetry, a.telemetry)),
                        Send(Update(Neighbours, a.neighbours)), Send(Update(Regions, a.regions)), Logout]
  {
    trace := RequestRepeaterDetail(a);
    ghost var sends := AsSends(Updates(a));
    assert |sends| == 4 && forall i :: 0 <= i < 4 ==> sends[i].Send?;
    if a.registered {
      assert trace[0] == Login(a.loginOk);
      assert a.loginOk ==> trace[5] == Logout;
    }
  }

  // ----- the channel between the mesh task and the connection

  /** `todo` is still to be sent, `queue` is in the channel, `passed` was written
      to the client; `listening` ends when the connection gives up. */
  datatype Stream = Stream(todo: seq<Update>, queue: seq<Update>, passed: seq<Update>, listening: bool)

  /** Sending waits for room unless the receiver is gone, when it returns at once. */
  ghost predicate CanSend(s: Stream) {
    s.todo != [] && (!s.listening || |s.queue| < CHANNEL_CAPACITY)
  }

  ghost predicate Sends(s: Stream, s': Stream) {
    CanSend(s) && s' == s.(todo := s.todo[1..], queue := if s.listening then s.queue + [s.todo[0]] else s.queue)
  }

  ghost predicate Passes(s: Stream, s': Stream) {
    s.listening && s.queue != [] && s' == s.(queue := s.queue[1..], passed := s.passed + [s.queue[0]])
  }

  ghost predicate GivesUp(s: Stream, s': Stream) {
    s' == s.(listening := false)
  }

  ghost predicate Behaviour(run: seq<Stream>, all: seq<Update>) {
    && run != [] && run[0] == Stream(all, [], [], true)
    && forall n :: 0 <= n < |run| - 1 ==>
         Sends(run[n], run[n + 1]) || Passes(run[n], run[n + 1]) || GivesUp(run[n], run[n + 1])
  }

  lemma {:induction false} StreamInv(run: seq<Stream>, all: seq<Update>, n: nat)
    requires Behaviour(run, all) && n < |run|
    ensures var s := run[n];
            && (s.listening ==> s.passed + s.queue + s.todo == all)
            && s.passed <= all && |s.passed| + |s.queue| + |s.todo| <= |all|
  {
    if n > 0 {
      StreamInv(run, all, n - 1);
      var s, s' := run[n - 1], run[n];
      if Sends(s, s') && s.listening {
        assert s'.passed + s'.queue + s'.todo == s.passed + s.queue + s.todo;
      } else if Passes(s, s') {
        assert s'.passed + s'.queue + s'.todo == s.passed + s.queue + s.todo;
        assert s'.passed <= s'.passed + s'.queue + s'.todo;
      }
    }
  }

  /** Four updates fit a channel of four: however slowly the client reads, the
      mesh task can always send the next one, and what the client has been passed
      is a prefix of the fixed order. */
  lemma FetchNeverBlocks(run: seq<Stream>, all: seq<Update>, n: nat)
    requires Behaviour(run, all) && n < |run| && Categories(all) == ORDER
    ensures run[n].todo != [] ==> CanSend(run[n])
    ensures Categories(run[n].passed) <= ORDER
    ensures run[n].listening && run[n].todo == [] && run[n].queue == [] ==> run[n].passed == all
  {
    StreamInv(run, all, n);
    assert |all| == |Categories(all)| == 4;
  }

  // ----- the popup

  datatype Detail = Detail(
    status: Option<int>, telemetry: Option<int>, neighbours: Option<int>, regions: Option<int>, errors: seq<string>)

  const EMPTY := Detail(None, None, None, None, [])

  function CategoryName(c: Category): string {
    match c
    case Status => "status"
    case Telemetry => "telemetry"
    case Neighbours => "neighbours"
    case Regions => "regions"
  }

  function ErrorText(c: Category, message: string): string {
    CategoryName(c) + ": " + message
  }

  /** `apply_category`: a success fills its field, a failure adds a line. */
  function Applied(d: Detail, u: Update): Detail {
    match u
    case Update(c, Err(message)) => d.(errors := d.errors + [ErrorText(c, message)])
    case Update(Status, Ok(v)) => d.(status := Some(v))
    case Update(Telemetry, Ok(v)) => d.(telemetry := Some(v))
    case Update(Neighbours, Ok(v)) => d.(neighbours := Some(v))
    case Update(Regions, Ok(v)) => d.(regions := Some(v))
  }

  function AppliedAll(us: seq<Update>): Detail {
    if us == [] then EMPTY else Applied(AppliedAll(us[..|us| - 1]), us[|us| - 1])
  }

  /** What the section of category `c` shows. */
  function Shown(d: Detail, c: Category): Option<int> {
    match c
    case Status => d.status
    case Telemetry => d.telemetry
    case Neighbours => d.neighbours
    case Regions => d.regions
  }

  /** `category_pending`: no data, and no error line starting with the name. */
  predicate Pending(d: Detail, c: Category) {
    Shown(d, c).None? && forall i :: 0 <= i < |d.errors| ==> !(CategoryName(c) <= d.errors[i])
  }

  /** No category's name begins another category's error line. */
  lemma ErrorNamesItsCategory(c: Category, of: Category, message: string)
    ensures CategoryName(c) <= ErrorText(of, message) <==> c == of
  {
    var e := ErrorText(of, message);
    assert e[0] == CategoryName(of)[0];
    assert c == of ==> e[..|CategoryName(c)|] == CategoryName(c);
  }

  lemma FailureResolves(d: Detail, of: Category, message: string, c: Category)
    ensures Pending(Applied(d, Update(of, Err(message))), c) <==> Pending(d, c) && of != c
  {
    var line := ErrorText(of, message);
    var d' := d.(errors := d.errors + [line]);
    ErrorNamesItsCategory(c, of, message);
    assert d'.errors[|d.errors|] == line;
    assert forall i :: 0 <= i < |d.errors| ==> d'.errors[i] == d.errors[i];
  }

  lemma UpdateResolves(d: Detail, u: Update, c: Category)
    ensures Pending(Applied(d, u), c) <==> Pending(d, c) && u.category != c
  {
    if u.result.Err? {
      FailureResolves(d, u.category, u.result.message, c);
    }
  }

  /** A section stops showing as pending exactly when its first update arrives, be
      it data or an error, in whatever order and however often updates come. */
  lemma {:induction false} PendingUntilUpdated(us: seq<Update>, c: Category)
    ensures Pending(AppliedAll(us), c) <==> forall i :: 0 <= i < |us| ==> us[i].category != c
  {
    if us != [] {
      var n := |us| - 1;
      PendingUntilUpdated(us[..n], c);
      UpdateResolves(AppliedAll(us[..n]), us[n], c);
      assert forall i :: 0 <= i < n ==> us[i] == us[..n][i];
    }
  }

  /** Update `i` is the last successful one for `c`. */
  ghost predicate LatestOk(us: seq<Update>, c: Category, i: nat) {
    && i < |us| && us[i].category == c && us[i].result.Ok?
    && forall j :: i < j < |us| && us[j].category == c ==> us[j].result.Err?
  }

  ghost predicate NoOk(us: seq<Update>, c: Category) {
    forall i :: 0 <= i < |us| && us[i].category == c ==> us[i].result.Err?
  }

  lemma UpdateShows(d: Detail, u: Update, c: Category)
    ensures Shown(Applied(d, u), c)
         == if u.category == c && u.result.Ok? then Some(u.result.data) else Shown(d, c)
  {
  }

  lemma LaterFailureKeeps(before: seq<Update>, u: Update, c: Category, i: nat)
    requires u.category == c ==> u.result.Err?
    ensures NoOk(before + [u], c) <==> NoOk(before, c)
    ensures LatestOk(before, c, i) ==> LatestOk(before + [u], c, i)
  {
    var us := before + [u];
    assert forall j :: 0 <= j < |before| ==> us[j] == before[j];
  }

  /** A section shows the data of the last success for its category, and nothing
      before the first: failures never blank it, other categories never fill it. */
  lemma {:induction false} ShowsLatestOk(us: seq<Update>, c: Category) returns (i: nat)
    ensures Shown(AppliedAll(us), c).None? <==> NoOk(us, c)
    ensures !NoOk(us, c) ==> LatestOk(us, c, i) && Shown(AppliedAll(us), c) == Some(us[i].result.data)
  {
    if us == [] {
      i := 0;
    } else {
      var n := |us| - 1;
      UpdateShows(AppliedAll(us[..n]), us[n], c);
      if us[n].category == c && us[n].result.Ok? {
        i := n;
      } else {
        i := ShowsLatestOk(us[..n], c);
        LaterFailureKeeps(us[..n], us[n], c, i);
        assert us == us[..n] + [us[n]];
      }
    }
  }

  /** The line a failed update leaves. */
  function ErrorLine(u: Update): seq<string> {
    match u
    case Update(_, Ok(_)) => []
    case Update(Status, Err(m)) => ["status: " + m]
    case Update(Telemetry, Err(m)) => ["telemetry: " + m]
    case Update(Neighbours, Err(m)) => ["neighbours: " + m]
    case Update(Regions, Err(m)) => ["regions: " + m]
  }

  /** One line per failed update, in the order they came. */
  function ErrorLines(us: seq<Update>): seq<string> {
    if us == [] then [] else ErrorLine(us[0]) + ErrorLines(us[1..])
  }

  lemma {:induction false} ErrorLinesAppend(us: seq<Update>, u: Update)
    ensures ErrorLines(us + [u]) == ErrorLines(us) + ErrorLine(u)
  {
    if us == [] {
      assert us + [u] == [u] && [u][1..] == [];
    } else {
      ErrorLinesAppend(us[1..], u);
      assert (us + [u])[1..] == us[1..] + [u];
      ConcatAssociates(ErrorLine(us[0]), ErrorLines(us[1..]), ErrorLine(u));
    }
  }

  lemma UpdateAddsLine(d: Detail, u: Update)
    ensures Applied(d, u).errors == d.errors + ErrorLine(u)
  {
    assert "status" + ": " == "status: " && "telemetry" + ": " == "telemetry: ";
    assert "neighbours" + ": " == "neighbours: " && "regions" + ": " == "regions: ";
  }

  lemma {:induction false} ErrorsInOrder(us: seq<Update>)
    ensures AppliedAll(us).errors == ErrorLines(us)
  {
    if us != [] {
      var n := |us| - 1;
      ErrorsInOrder(us[..n]);
      ErrorLinesAppend(us[..n], us[n]);
      UpdateAddsLine(AppliedAll(us[..n]), us[n]);
      assert us == us[..n] + [us[n]];
    }
  }

  /** The popup shows one contact, by prefix. */
  datatype Popup = Popup(prefix: string, detail: Detail)

  datatype UiEvent = Open(prefix: string) | Close | Arrive(prefix: string, update: Update)

  function Handled(p: Option<Popup>, e: UiEvent): Option<Popup> {
    match e
    case Open(prefix) => Some(Popup(prefix, EMPTY))
    case Close => None
    case Arrive(prefix, u) =>
      if p.Some? && p.value.prefix == prefix then Some(Popup(prefix, Applied(p.value.detail, u))) else p
  }

  function HandledAll(es: seq<UiEvent>): Option<Popup> {
    if es == [] then None else Handled(HandledAll(es[..|es| - 1]), es[|es| - 1])
  }

  class DetailView {
    var popup: Option<Popup>

    constructor ()
      ensures popup == HandledAll([])
    {
      popup := None;
    }

    method OpenPending(prefix: string)
      modifies this
      ensures popup == Handled(old(popup), Open(prefix))
    {
      popup := Some(Popup(prefix, EMPTY));
    }

    method CloseDetail()
      modifies this
      ensures popup == Handled(old(popup), Close)
    {
      popup := None;
    }

    /** An update for a contact the popup no longer shows is dropped. */
    method ApplyCategory(prefix: string, update: Update)
      modifies this
      ensures popup == Handled(old(popup), Arrive(prefix, update))
    {
      if popup.None? {
        return;
      }
      var view := popup.value;
      if view.prefix != prefix {
        return;
      }
      popup := Some(view.(detail := Applied(view.detail, update)));
    }
  }

  /** Event `i` opens the popup for `prefix`, and nothing after it opens or closes one. */
  ghost predicate LastOpened(es: seq<UiEvent>, prefix: string, i: nat) {
    i < |es| && es[i] == Open(prefix) && forall j :: i < j < |es| ==> es[j].Arrive?
  }

  lemma ArrivalOpensNothing(before: seq<UiEvent>, e: UiEvent, prefix: string)
    requires e.Arrive?
    ensures (exists i :: LastOpened(before + [e], prefix, i)) <==> exists i :: LastOpened(before, prefix, i)
  {
    var es := before + [e];
    assert forall j :: 0 <= j < |before| ==> es[j] == before[j];
    forall i ensures LastOpened(es, prefix, i) <==> LastOpened(before, prefix, i) {
    }
  }

  lemma LastDecides(before: seq<UiEvent>, e: UiEvent, prefix: string)
    requires !e.Arrive?
    ensures (exists i :: LastOpened(before + [e], prefix, i)) <==> e == Open(prefix)
  {
    var es, n := before + [e], |before|;
    assert es[n] == e;
    assert e == Open(prefix) ==> LastOpened(es, prefix, n);
  }

  /** The popup is open for exactly the contact it was last opened for, until it is
      closed; an arrival neither opens nor closes nor retargets it. */
  lemma {:induction false} OpenForLastOpened(es: seq<UiEvent>, prefix: string)
    ensures HandledAll(es).Some? && HandledAll(es).value.prefix == prefix <==> exists i :: LastOpened(es, prefix, i)
  {
    if es != [] {
      var n := |es| - 1;
      assert es == es[..n] + [es[n]];
      if es[n].Arrive? {
        OpenForLastOpened(es[..n], prefix);
        ArrivalOpensNothing(es[..n], es[n], prefix);
      } else {
        LastDecides(es[..n], es[n], prefix);
      }
    }
  }

  /** The updates for `prefix` since the popup was last opened or closed. */
  function Since(es: seq<UiEvent>, prefix: string): seq<Update> {
    if es == [] then []
    else
      match es[|es| - 1]
      case Arrive(p, u) =>
        Since(es[..|es| - 1], prefix) + if p == prefix then [u] else []
      case _ => []
  }

  lemma {:induction false} PopupShowsSince(es: seq<UiEvent>)
    requires HandledAll(es).Some?
    ensures var p := HandledAll(es).value; p.detail == AppliedAll(Since(es, p.prefix))
  {
    var n := |es| - 1;
    if es[n].Arrive? {
      PopupShowsSince(es[..n]);
      var p := HandledAll(es).value;
      var before := Since(es[..n], p.prefix);
      if es[n].prefix == p.prefix {
        assert (before + [es[n].update])[..|before|] == before;
      } else {
        assert before + [] == before;
      }
    }
  }

  /** After any history of opening, closing and arrivals, stale ones included, a
      section of the open popup is pending exactly when no update for it and for
      the shown contact has arrived since the popup was opened. */
  lemma PendingSinceOpened(es: seq<UiEvent>, c: Category)
    requires HandledAll(es).Some?
    ensures var p := HandledAll(es).value; var us := Since(es, p.prefix);
            Pending(p.detail, c) <==> forall i :: 0 <= i < |us| ==> us[i].category != c
  {
    PopupShowsSince(es);
    PendingUntilUpdated(Since(es, HandledAll(es).value.prefix), c);
  }

  /** Whatever happened before, the open popup's section shows the data of the last
      success for it and for the shown contact since the popup was opened. */
  lemma ShowsLatestSinceOpened(es: seq<UiEvent>, c: Category) returns (i: nat)
    requires HandledAll(es).Some?
    ensures var p := HandledAll(es).value; var us := Since(es, p.prefix);
            && (Shown(p.detail, c).None? <==> NoOk(us, c))
            && (!NoOk(us, c) ==> LatestOk(us, c, i) && Shown(p.detail, c) == Some(us[i].result.data))
  {
    PopupShowsSince(es);
    i := ShowsLatestOk(Since(es, HandledAll(es).value.prefix), c);
  }
}
