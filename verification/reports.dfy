/** The two scheduled tasks of index.js. For every manager document with both a payment
    method and a chat id, the noon task aggregates the trailing week and sends a full
    report; the evening task sends the balance alone. Each task's effect on the outside
    world is its sequence of actions; the result of a send is never inspected. */
module Reports {
  import opened Wrappers
  import opened Money
  import opened Dates
  import opened Periods
  import opened Stats

  /** A manager document. A field is `None` when missing; the empty string is the falsy
      value a present text field can hold. `balance` is `None` when missing or falsy. */
  datatype Manager = Manager(payment: Option<string>, groupId: Option<string>, balance: Option<int>)

  predicate Truthy(field: Option<string>) {
    field.Some? && field.value != ""
  }

  /** `if (method && groupId)`. */
  predicate Eligible(m: Manager) {
    Truthy(m.payment) && Truthy(m.groupId)
  }

  /** `Number(manager.balance || 0)`. */
  function BalanceOf(m: Manager): int {
    m.balance.GetOr(0)
  }

  /** The content of a message, before it is rendered as text. Figures are in cents; each
      USDT figure is the task's conversion of the BDT figure beside it. */
  datatype Report =
    | Daily(payment: string, from: CalendarDate, to: CalendarDate,
            deposit: int, depositUsdt: int, withdraw: int, withdrawUsdt: int,
            balance: int, balanceUsdt: int)
    | BalanceOnly(payment: string, balance: int, balanceUsdt: int)

  /** An effect of a task: a `getStats` call for a payment method over a window, or a
      message sent to a chat. */
  datatype Action = Aggregate(payment: string, window: Window) | Send(chatId: string, report: Report)

  /** What a run depends on: the current instant, the local calendar date of each day
      number, the two collections as queried for a payment method, and the conversion of a
      BDT amount to USDT cents. */
  datatype Env = Env(
    now: int,
    calendar: int -> CalendarDate,
    deposits: string -> Snapshot,
    withdrawals: string -> Snapshot,
    toUsdt: int -> int)

  /** "<amount> BDT (<amount> USDT)". */
  function MoneyPair(bdt: int, usdt: int): string {
    FormatMoney(bdt) + " BDT (" + FormatMoney(usdt) + " USDT)"
  }

  /** The balance line of both tasks: a minus sign written before both figures. */
  function BalanceLine(bdt: int, usdt: int): string {
    "Balance (full) = " + ("-" + FormatMoney(bdt)) + " BDT (" + ("-" + FormatMoney(usdt)) + " USDT)"
  }

  /** The first line of a message: the task's title. */
  function Title(r: Report): string {
    if r.Daily? then "t+\U{2192}$ (Daily Report)\n" else "t+\U{2192}p\n"
  }

  /** The second line: the payment method, in bold at noon. */
  function MethodLine(r: Report): string {
    if r.Daily? then "<b>" + r.payment + "</b>\n" else r.payment + "\n"
  }

  /** The lines between the method and the balance: only the noon report has them. */
  function Figures(r: Report): string {
    match r
    case Daily(_, from, to, dep, depUsdt, wd, wdUsdt, _, _) =>
      FormatDate(from) + " - " + FormatDate(to) + " (Last 7 Days)\n"
      + "Payment (7d) = " + MoneyPair(dep, depUsdt) + "\n"
      + "Withdrawal (7d) = " + MoneyPair(wd, wdUsdt) + "\n"
    case BalanceOnly(_, _, _) => ""
  }

  /** The text sent to the chat: the noon report ends its balance line with a line break,
      the evening report does not. */
  function Render(r: Report): string {
    Title(r) + MethodLine(r) + Figures(r) + BalanceLine(r.balance, r.balanceUsdt)
    + (if r.Daily? then "\n" else "")
  }

  /** The noon task's work for one manager. */
  function DailyStep(m: Manager, w: Window, env: Env): seq<Action> {
    if Eligible(m) then
      var payment := m.payment.value;
      var totals := GetStats(env.deposits(payment), env.withdrawals(payment), w, env.now);
      var balance := BalanceOf(m);
      var report := Daily(payment, env.calendar(DayOf(w.start)), env.calendar(DayOf(w.end)),
                          totals.weeklyDeposit, env.toUsdt(totals.weeklyDeposit),
                          totals.weeklyWithdraw, env.toUsdt(totals.weeklyWithdraw),
                          balance, env.toUsdt(balance));
      [Aggregate(payment, w), Send(m.groupId.value, report)]
    else []
  }

  /** The evening task's work for one manager. */
  function BalanceStep(m: Manager, env: Env): seq<Action> {
    if Eligible(m) then
      var balance := BalanceOf(m);
      [Send(m.groupId.value, BalanceOnly(m.payment.value, balance, env.toUsdt(balance)))]
    else []
  }

  /** The managers in store order, each handled in turn. */
  function ForEachManager(ms: seq<Manager>, step: Manager -> seq<Action>): seq<Action> {
    if |ms| == 0 then [] else step(ms[0]) + ForEachManager(ms[1..], step)
  }

  /** Task 1, at noon. A failed manager query is caught and ends the run without effect;
      the window is computed once and shared by all managers. */
  function DailyReport(managers: Result<seq<Manager>, QueryError>, env: Env): seq<Action> {
    match managers
    case Failure(_) => []
    case Success(ms) =>
      if |ms| == 0 then []
      else
        var w := TrailingWeek(env.now);
        ForEachManager(ms, m => DailyStep(m, w, env))
  }

  /** Task 2, in the evening: balances only, no aggregation. */
  function BalanceReport(managers: Result<seq<Manager>, QueryError>, env: Env): seq<Action> {
    match managers
    case Failure(_) => []
    case Success(ms) =>
      if |ms| == 0 then [] else ForEachManager(ms, m => BalanceStep(m, env))
  }

  // ---------------------------------------------------------------------------
  // Who is reached
  // ---------------------------------------------------------------------------

  /** The chats messages go to, in order. */
  function Recipients(acts: seq<Action>): seq<string> {
    if |acts| == 0 then []
    else (if acts[0].Send? then [acts[0].chatId] else []) + Recipients(acts[1..])
  }

  /** The methods `getStats` is called for, in order. */
  function AggregatedMethods(acts: seq<Action>): seq<string> {
    if |acts| == 0 then []
    else (if acts[0].Aggregate? then [acts[0].payment] else []) + AggregatedMethods(acts[1..])
  }

  /** Reference: the managers the `if` lets through, in order. */
  function EligibleManagers(ms: seq<Manager>): (es: seq<Manager>)
    ensures forall m :: m in es ==> Eligible(m) && m in ms
  {
    if |ms| == 0 then []
    else if Eligible(ms[0]) then [ms[0]] + EligibleManagers(ms[1..])
    else EligibleManagers(ms[1..])
  }

  function ChatIds(ms: seq<Manager>): seq<string> {
    if |ms| == 0 then [] else [ms[0].groupId.GetOr("")] + ChatIds(ms[1..])
  }

  function Methods(ms: seq<Manager>): seq<string> {
    if |ms| == 0 then [] else [ms[0].payment.GetOr("")] + Methods(ms[1..])
  }

  lemma {:induction false} RecipientsAppend(a: seq<Action>, b: seq<Action>)
    ensures Recipients(a + b) == Recipients(a) + Recipients(b)
    decreases |a|
  {
    if |a| == 0 {
      assert a + b == b;
    } else {
      assert (a + b)[0] == a[0];
      assert (a + b)[1..] == a[1..] + b;
      RecipientsAppend(a[1..], b);
      var head := if a[0].Send? then [a[0].chatId] else [];
      assert Recipients(a + b) == head + (Recipients(a[1..]) + Recipients(b));
      assert Recipients(a) == head + Recipients(a[1..]);
    }
  }

  lemma {:induction false} AggregatedAppend(a: seq<Action>, b: seq<Action>)
    ensures AggregatedMethods(a + b) == AggregatedMethods(a) + AggregatedMethods(b)
    decreases |a|
  {
    if |a| == 0 {
      assert a + b == b;
    } else {
      assert (a + b)[0] == a[0];
      assert (a + b)[1..] == a[1..] + b;
      AggregatedAppend(a[1..], b);
      var head := if a[0].Aggregate? then [a[0].payment] else [];
      assert AggregatedMethods(a + b) == head + (AggregatedMethods(a[1..]) + AggregatedMethods(b));
      assert AggregatedMethods(a) == head + AggregatedMethods(a[1..]);
    }
  }

  /** A step that messages exactly the eligible managers makes the whole run message exactly
      the eligible managers, once each, in store order. */
  lemma {:induction false} ForEachRecipients(ms: seq<Manager>, step: Manager -> seq<Action>)
    requires forall m :: Recipients(step(m)) == (if Eligible(m) then [m.groupId.value] else [])
    ensures Recipients(ForEachManager(ms, step)) == ChatIds(EligibleManagers(ms))
    decreases |ms|
  {
    if 0 < |ms| {
      var m, rest := ms[0], ms[1..];
      var done := ForEachManager(rest, step);
      ForEachRecipients(rest, step);
      assert ForEachManager(ms, step) == step(m) + done;
      RecipientsAppend(step(m), done);
      if Eligible(m) {
        var es := EligibleManagers(rest);
        assert EligibleManagers(ms) == [m] + es;
        assert ([m] + es)[0] == m && ([m] + es)[1..] == es;
        assert ChatIds([m] + es) == [m.groupId.value] + ChatIds(es);
      }
    }
  }

  /** The same for the `getStats` calls of a step that aggregates for exactly the eligible
      managers. */
  lemma {:induction false} ForEachAggregations(ms: seq<Manager>, step: Manager -> seq<Action>)
    requires forall m :: AggregatedMethods(step(m)) == (if Eligible(m) then [m.payment.value] else [])
    ensures AggregatedMethods(ForEachManager(ms, step)) == Methods(EligibleManagers(ms))
    decreases |ms|
  {
    if 0 < |ms| {
      var m, rest := ms[0], ms[1..];
      var done := ForEachManager(rest, step);
      ForEachAggregations(rest, step);
      assert ForEachManager(ms, step) == step(m) + done;
      AggregatedAppend(step(m), done);
      if Eligible(m) {
        var es := EligibleManagers(rest);
        assert EligibleManagers(ms) == [m] + es;
        assert ([m] + es)[0] == m && ([m] + es)[1..] == es;
        assert Methods([m] + es) == [m.payment.value] + Methods(es);
      }
    }
  }

  /** A step without `getStats` calls makes a run without them. */
  lemma {:induction false} ForEachNoAggregation(ms: seq<Manager>, step: Manager -> seq<Action>)
    requires forall m :: AggregatedMethods(step(m)) == []
    ensures AggregatedMethods(ForEachManager(ms, step)) == []
    decreases |ms|
  {
    if 0 < |ms| {
      ForEachNoAggregation(ms[1..], step);
      AggregatedAppend(step(ms[0]), ForEachManager(ms[1..], step));
    }
  }

  lemma DailyStepReaches(m: Manager, w: Window, env: Env)
    ensures Recipients(DailyStep(m, w, env)) == (if Eligible(m) then [m.groupId.value] else [])
    ensures AggregatedMethods(DailyStep(m, w, env)) == (if Eligible(m) then [m.payment.value] else [])
  {
    if Eligible(m) {
      var acts := DailyStep(m, w, env);
      assert acts[0].Aggregate? && acts[1].Send? && acts[1].chatId == m.groupId.value;
      assert acts[1..][1..] == [];
      assert Recipients(acts[1..]) == [m.groupId.value];
      assert AggregatedMethods(acts[1..]) == [];
    }
  }

  lemma BalanceStepReaches(m: Manager, env: Env)
    ensures Recipients(BalanceStep(m, env)) == (if Eligible(m) then [m.groupId.value] else [])
    ensures AggregatedMethods(BalanceStep(m, env)) == []
  {
    if Eligible(m) {
      assert BalanceStep(m, env)[1..] == [];
    }
  }

  /** Noon: every manager with a payment method and a chat id gets one `getStats` call and
      one message, in store order; no other manager gets either; nothing happens when the
      manager query fails. */
  lemma DailyReportReaches(managers: Result<seq<Manager>, QueryError>, env: Env)
    ensures managers.Failure? ==> DailyReport(managers, env) == []
    ensures managers.Success? ==>
      Recipients(DailyReport(managers, env)) == ChatIds(EligibleManagers(managers.value))
    ensures managers.Success? ==>
      AggregatedMethods(DailyReport(managers, env)) == Methods(EligibleManagers(managers.value))
  {
    if managers.Success? && 0 < |managers.value| {
      var ms := managers.value;
      var w := TrailingWeek(env.now);
      var step := m => DailyStep(m, w, env);
      forall m ensures Recipients(step(m)) == (if Eligible(m) then [m.groupId.value] else [])
        && AggregatedMethods(step(m)) == (if Eligible(m) then [m.payment.value] else [])
      {
        DailyStepReaches(m, w, env);
      }
      ForEachRecipients(ms, step);
      ForEachAggregations(ms, step);
    }
  }

  /** Evening: every manager with a payment method and a chat id gets one message, in store
      order; no other manager gets one, and no `getStats` call is made. */
  lemma BalanceReportReaches(managers: Result<seq<Manager>, QueryError>, env: Env)
    ensures managers.Failure? ==> BalanceReport(managers, env) == []
    ensures managers.Success? ==>
      Recipients(BalanceReport(managers, env)) == ChatIds(EligibleManagers(managers.value))
    ensures AggregatedMethods(BalanceReport(managers, env)) == []
  {
    if managers.Success? && 0 < |managers.value| {
      var ms := managers.value;
      var step := m => BalanceStep(m, env);
      forall m ensures Recipients(step(m)) == (if Eligible(m) then [m.groupId.value] else [])
        && AggregatedMethods(step(m)) == []
      {
        BalanceStepReaches(m, env);
      }
      ForEachRecipients(ms, step);
      ForEachNoAggregation(ms, step);
    }
  }

  lemma {:induction false} ForEachAppend(a: seq<Manager>, b: seq<Manager>, step: Manager -> seq<Action>)
    ensures ForEachManager(a + b, step) == ForEachManager(a, step) + ForEachManager(b, step)
    decreases |a|
  {
    if |a| == 0 {
      assert a + b == b;
    } else {
      assert (a + b)[0] == a[0];
      assert (a + b)[1..] == a[1..] + b;
      ForEachAppend(a[1..], b, step);
    }
  }

  /** A manager lacking a payment method or a chat id leaves the noon run exactly as if the
      document were absent. */
  lemma DailySkipsIneligible(a: seq<Manager>, m: Manager, b: seq<Manager>, env: Env)
    requires !Eligible(m)
    ensures DailyReport(Success(a + [m] + b), env) == DailyReport(Success(a + b), env)
  {
    var w := TrailingWeek(env.now);
    var step := x => DailyStep(x, w, env);
    ForEachAppend(a + [m], b, step);
    ForEachAppend(a, [m], step);
    ForEachAppend(a, b, step);
    assert ForEachManager([m], step) == step(m) + ForEachManager([m][1..], step);
    if |a + b| == 0 {
      assert ForEachManager(a + [m] + b, step) == [];
    }
  }

  /** The same for the evening run. */
  lemma BalanceSkipsIneligible(a: seq<Manager>, m: Manager, b: seq<Manager>, env: Env)
    requires !Eligible(m)
    ensures BalanceReport(Success(a + [m] + b), env) == BalanceReport(Success(a + b), env)
  {
    var step := x => BalanceStep(x, env);
    ForEachAppend(a + [m], b, step);
    ForEachAppend(a, [m], step);
    ForEachAppend(a, b, step);
    assert ForEachManager([m], step) == step(m) + ForEachManager([m][1..], step);
    if |a + b| == 0 {
      assert ForEachManager(a + [m] + b, step) == [];
    }
  }

  // ---------------------------------------------------------------------------
  // What the balance line shows
  // ---------------------------------------------------------------------------

  /** The balance line shows the negated figures, `formatMoney(-bdt)` and `formatMoney(-usdt)`,
      exactly when both are positive. `Money.MinusPrefixOnNonPositive` says what the other
      figures show. */
  lemma BalanceLineNegates(bdt: int, usdt: int)
    ensures BalanceLine(bdt, usdt)
         == "Balance (full) = " + FormatMoney(-bdt) + " BDT (" + FormatMoney(-usdt) + " USDT)"
        <==> 0 < bdt && 0 < usdt
  {
    var p := "Balance (full) = ";
    var a, na := "-" + FormatMoney(bdt), FormatMoney(-bdt);
    var b, nb := "-" + FormatMoney(usdt), FormatMoney(-usdt);
    MinusPrefixShowsNegation(bdt);
    MinusPrefixShowsNegation(usdt);
    if bdt <= 0 {
      FormatMoneyShape(-bdt);
      FirstDifference(p, a, na, " BDT (" + b + " USDT)", " BDT (" + nb + " USDT)");
    } else if usdt <= 0 {
      FormatMoneyShape(-usdt);
      FirstDifference(p + a + " BDT (", b, nb, " USDT)", " USDT)");
    }
  }

  /** Two texts that agree up to a point and then differ in the next character differ. */
  lemma FirstDifference(p: string, x: string, y: string, s: string, t: string)
    requires 0 < |x| && 0 < |y| && x[0] != y[0]
    ensures p + x + s != p + y + t
  {
    assert (p + x + s)[|p|] == x[0];
    assert (p + y + t)[|p|] == y[0];
  }

  // ---------------------------------------------------------------------------
  // What each manager is sent
  // ---------------------------------------------------------------------------

  /** At noon an eligible manager's chat gets a report on its own payment method: the first
      and last dates of the window, the window's approved deposits and withdrawals of that
      method (zero where `getStats` caught a failed query), and the manager's own balance,
      each beside its USDT conversion. The `getStats` call comes first and covers the same
      window. */
  lemma DailyStepSends(m: Manager, w: Window, env: Env)
    requires Eligible(m)
    ensures var acts := DailyStep(m, w, env);
      var p := m.payment.value;
      var deps, wds := env.deposits(p), env.withdrawals(p);
      && |acts| == 2
      && acts[0] == Aggregate(p, w)
      && acts[1].Send? && acts[1].chatId == m.groupId.value
      && acts[1].report.Daily? && acts[1].report.payment == p
      && acts[1].report.from == env.calendar(DayOf(w.start))
      && acts[1].report.to == env.calendar(DayOf(w.end))
      && acts[1].report.deposit == (if deps.Success? then WindowTotal(deps.value, w, env.now) else 0)
      && acts[1].report.withdraw
         == (if deps.Success? && wds.Success? then WindowTotal(wds.value, w, env.now) else 0)
      && acts[1].report.depositUsdt == env.toUsdt(acts[1].report.deposit)
      && acts[1].report.withdrawUsdt == env.toUsdt(acts[1].report.withdraw)
      && acts[1].report.balance == m.balance.GetOr(0)
      && acts[1].report.balanceUsdt == env.toUsdt(m.balance.GetOr(0))
  {
  }

  /** In the evening an eligible manager's chat gets its own method and balance, beside the
      balance's USDT conversion, and nothing else. */
  lemma BalanceStepSends(m: Manager, env: Env)
    requires Eligible(m)
    ensures var acts := BalanceStep(m, env);
      && |acts| == 1
      && acts[0].Send? && acts[0].chatId == m.groupId.value
      && acts[0].report.BalanceOnly? && acts[0].report.payment == m.payment.value
      && acts[0].report.balance == m.balance.GetOr(0)
      && acts[0].report.balanceUsdt == env.toUsdt(m.balance.GetOr(0))
  {
  }

  /** An action of a noon run over window `w`: its `getStats` call covers `w` and its report
      is dated from the first to the last day of `w`. */
  predicate ForWindow(a: Action, w: Window, env: Env) {
    && (a.Aggregate? ==> a.window == w)
    && (a.Send? ==> a.report.Daily?
                    && a.report.from == env.calendar(DayOf(w.start))
                    && a.report.to == env.calendar(DayOf(w.end)))
  }

  lemma {:induction false} ForEachForWindow(ms: seq<Manager>, step: Manager -> seq<Action>, w: Window, env: Env)
    requires forall m, i :: 0 <= i < |step(m)| ==> ForWindow(step(m)[i], w, env)
    ensures forall i :: 0 <= i < |ForEachManager(ms, step)| ==> ForWindow(ForEachManager(ms, step)[i], w, env)
    decreases |ms|
  {
    if 0 < |ms| {
      var head, rest := step(ms[0]), ForEachManager(ms[1..], step);
      ForEachForWindow(ms[1..], step, w, env);
      assert ForEachManager(ms, step) == head + rest;
      forall i | 0 <= i < |head + rest| ensures ForWindow((head + rest)[i], w, env) {
        if i < |head| {
          assert (head + rest)[i] == head[i];
        } else {
          assert (head + rest)[i] == rest[i - |head|];
        }
      }
    }
  }

  /** Every manager of one noon run is reported on the same trailing week: each `getStats`
      call covers `TrailingWeek(now)`, and each report runs from the date six days before
      today to today's date. */
  lemma DailyReportCoversWeek(managers: Result<seq<Manager>, QueryError>, env: Env)
    ensures var acts := DailyReport(managers, env);
      forall i :: 0 <= i < |acts| ==>
        && (acts[i].Aggregate? ==> acts[i].window == TrailingWeek(env.now))
        && (acts[i].Send? ==> acts[i].report.Daily?
                              && acts[i].report.from == env.calendar(DayOf(env.now) - 6)
                              && acts[i].report.to == env.calendar(DayOf(env.now)))
  {
    if managers.Success? && 0 < |managers.value| {
      var w := TrailingWeek(env.now);
      var step := m => DailyStep(m, w, env);
      forall m, i | 0 <= i < |step(m)| ensures ForWindow(step(m)[i], w, env) {
      }
      ForEachForWindow(managers.value, step, w, env);
    }
  }

  /** The message text: the task's title and the payment method on top, the balance line at
      the bottom (followed by a line break at noon); the evening message has nothing in
      between. */
  lemma RenderLayout(r: Report)
    ensures var t := Render(r);
      var top := if r.Daily? then "t+\U{2192}$ (Daily Report)\n" + ("<b>" + r.payment + "</b>\n")
                 else "t+\U{2192}p\n" + (r.payment + "\n");
      var bottom := BalanceLine(r.balance, r.balanceUsdt) + (if r.Daily? then "\n" else "");
      && |top| + |bottom| <= |t|
      && t[..|top|] == top
      && t[|t| - |bottom|..] == bottom
      && (r.BalanceOnly? ==> t == top + bottom)
  {
    var top := Title(r) + MethodLine(r);
    var bottom := BalanceLine(r.balance, r.balanceUsdt) + (if r.Daily? then "\n" else "");
    RenderInThree(r);
    Framed(top, Figures(r), bottom);
    if r.BalanceOnly? {
      assert top + Figures(r) == top;
    }
  }

  lemma RenderInThree(r: Report)
    ensures Render(r) == (Title(r) + MethodLine(r)) + Figures(r)
                         + (BalanceLine(r.balance, r.balanceUsdt) + (if r.Daily? then "\n" else ""))
  {
    Regroup(Title(r) + MethodLine(r) + Figures(r), BalanceLine(r.balance, r.balanceUsdt),
            if r.Daily? then "\n" else "");
  }

  /** A text made of a top, a middle and a bottom starts with the top and ends with the
      bottom. */
  lemma Framed(top: string, middle: string, bottom: string)
    ensures |top| + |bottom| <= |top + middle + bottom|
    ensures (top + middle + bottom)[..|top|] == top
    ensures (top + middle + bottom)[|top + middle + bottom| - |bottom|..] == bottom
  {
  }
}
