/** `CompletedTasksFragment`: the completed tasks grouped by day, flattened into a list of date
    headers each followed by that day's tasks, newest day first, with a score on every header. */
module CompletedTasks {

  import opened Wrappers
  import opened CivilTime
  import opened Text
  import opened Lists
  import opened StableSort
  import opened TaskModel
  import opened Repository
  import opened TaskStore

  /** An entry of the adapter's `items`: a date (a header) or a task. */
  datatype Item = DateItem(date: int) | TaskItem(task: Task)

  const TypeHeader: int := 0
  const TypeTask: int := 1

  // ---------------------------------------------------------------------------------------------
  // The grouped map and its keys

  /** The dates of a `LinkedHashMap<Date, List<Task>>`, in insertion order. */
  function Keys(groups: seq<(int, seq<Task>)>): (keys: seq<int>)
    ensures |keys| == |groups| && forall i :: 0 <= i < |groups| ==> keys[i] == groups[i].0
  {
    seq(|groups|, i requires 0 <= i < |groups| => groups[i].0)
  }

  /** `groupedTasks[date] ?: emptyList()`. */
  function Lookup(groups: seq<(int, seq<Task>)>, date: int): (tasks: seq<Task>)
  {
    var i := GroupIndex(groups, date);
    if i < 0 then [] else groups[i].1
  }

  /** With distinct keys the lookup of a key finds its own group. */
  lemma LookupKey(groups: seq<(int, seq<Task>)>, i: int)
    requires DistinctKeys(groups) && 0 <= i < |groups|
    ensures Lookup(groups, groups[i].0) == groups[i].1
  {
    var j := GroupIndex(groups, groups[i].0);
    assert !(j < i) && !(i < j);
  }

  /** `sortedByDescending { it }`: the newest date gets the least key. */
  function Descending(date: int): SortKey
  {
    SortKey(-date, 0, 0)
  }

  function SortedDates(groups: seq<(int, seq<Task>)>): seq<int>
  {
    Sort(Keys(groups), Descending)
  }

  /** The sorted dates are the map's dates, newest first. */
  lemma SortedDatesCorrect(groups: seq<(int, seq<Task>)>)
    ensures var dates := SortedDates(groups);
      |dates| == |groups| && multiset(dates) == multiset(Keys(groups)) &&
      forall i, j :: 0 <= i < j < |dates| ==> dates[i] >= dates[j]
  {
    var dates := SortedDates(groups);
    SortCorrect(Keys(groups), Descending);
    forall i, j | 0 <= i < j < |dates|
      ensures dates[i] >= dates[j]
    {
      assert KeyLe(Descending(dates[i]), Descending(dates[j]));
    }
  }

  // ---------------------------------------------------------------------------------------------
  // Flattening

  function TaskItems(tasks: seq<Task>): (items: seq<Item>)
    ensures |items| == |tasks| && forall i :: 0 <= i < |tasks| ==> items[i] == TaskItem(tasks[i])
  {
    seq(|tasks|, i requires 0 <= i < |tasks| => TaskItem(tasks[i]))
  }

  /** For each date in turn, its header and then its tasks in their stored order. */
  function Flattened(dates: seq<int>, groups: seq<(int, seq<Task>)>): seq<Item>
  {
    if dates == [] then []
    else
      var n := |dates| - 1;
      Flattened(dates[..n], groups) + [DateItem(dates[n])] + TaskItems(Lookup(groups, dates[n]))
  }

  /** The number of tasks `groupedTasks[date]` lists for a date. */
  function TaskCount(groups: seq<(int, seq<Task>)>): int -> nat
  {
    (date: int) => |Lookup(groups, date)|
  }

  /** The sum of `size` over the dates. */
  function Total(dates: seq<int>, size: int -> nat): nat
  {
    if dates == [] then 0 else Total(dates[..|dates| - 1], size) + size(dates[|dates| - 1])
  }

  /** The number of tasks listed under the given dates. */
  function TaskTotal(dates: seq<int>, groups: seq<(int, seq<Task>)>): nat
  {
    Total(dates, TaskCount(groups))
  }

  /** One item per date and one per task listed under it. */
  lemma {:induction false} FlattenedLength(dates: seq<int>, groups: seq<(int, seq<Task>)>)
    ensures |Flattened(dates, groups)| == |dates| + TaskTotal(dates, groups)
  {
    if dates != [] {
      FlattenedLength(dates[..|dates| - 1], groups);
    }
  }

  /** The dates of the headers, in list order. */
  function HeaderDates(items: seq<Item>): seq<int>
  {
    if items == [] then []
    else
      var n := |items| - 1;
      HeaderDates(items[..n]) + (if items[n].DateItem? then [items[n].date] else [])
  }

  lemma {:induction false} HeaderDatesAppend(a: seq<Item>, b: seq<Item>)
    ensures HeaderDates(a + b) == HeaderDates(a) + HeaderDates(b)
  {
    if b == [] {
      assert a + b == a;
    } else {
      var n := |b| - 1;
      assert (a + b)[..|a| + n] == a + b[..n];
      HeaderDatesAppend(a, b[..n]);
    }
  }

  lemma {:induction false} TaskItemsHaveNoHeader(tasks: seq<Task>)
    ensures HeaderDates(TaskItems(tasks)) == []
  {
    if tasks != [] {
      var n := |tasks| - 1;
      assert TaskItems(tasks)[..n] == TaskItems(tasks[..n]);
      TaskItemsHaveNoHeader(tasks[..n]);
    }
  }

  /** The headers of the flattened list are exactly the dates, in the same order. */
  lemma {:induction false} FlattenedHeaders(dates: seq<int>, groups: seq<(int, seq<Task>)>)
    ensures HeaderDates(Flattened(dates, groups)) == dates
  {
    if dates != [] {
      var n := |dates| - 1;
      FlattenedHeaders(dates[..n], groups);
      HeaderBlock(Flattened(dates[..n], groups), dates[n], Lookup(groups, dates[n]));
      assert dates[..n] + [dates[n]] == dates;
    }
  }

  /** A header followed by tasks adds exactly that header's date. */
  lemma HeaderBlock(front: seq<Item>, d: int, tasks: seq<Task>)
    ensures HeaderDates(front + [DateItem(d)] + TaskItems(tasks)) == HeaderDates(front) + [d]
  {
    var header := [DateItem(d)];
    assert (front + header)[..|front|] == front;
    HeaderDatesAppend(front + header, TaskItems(tasks));
    TaskItemsHaveNoHeader(tasks);
  }

  /** Listing every key of a grouping with distinct keys lists all its elements. */
  lemma {:induction false} TotalOfKeys(groups: seq<(int, seq<Task>)>, n: nat)
    requires DistinctKeys(groups) && n <= |groups|
    ensures TaskTotal(Keys(groups)[..n], groups) == GroupSizes(groups[..n])
  {
    if n > 0 {
      TotalOfKeys(groups, n - 1);
      assert Keys(groups)[..n][..n - 1] == Keys(groups)[..n - 1];
      assert groups[..n][..n - 1] == groups[..n - 1];
      LookupKey(groups, n - 1);
    }
  }

  lemma {:induction false} TotalAppend(a: seq<int>, b: seq<int>, size: int -> nat)
    ensures Total(a + b, size) == Total(a, size) + Total(b, size)
  {
    if b == [] {
      assert a + b == a;
    } else {
      var n := |b| - 1;
      assert (a + b)[..|a| + n] == a + b[..n];
      TotalAppend(a, b[..n], size);
    }
  }

  /** Taking one occurrence of `x` out of both sides keeps two sequences permutations of each
      other. */
  lemma RemoveOccurrence(a: seq<int>, x: int, b: seq<int>, j: int)
    requires 0 <= j < |b| && b[j] == x && multiset(a + [x]) == multiset(b)
    ensures multiset(a) == multiset(b[..j] + b[j + 1..])
  {
    var rest := b[..j] + b[j + 1..];
    assert b == b[..j] + [x] + b[j + 1..];
    var m, r := multiset(a), multiset(rest);
    assert m + multiset{x} == r + multiset{x};
    forall y
      ensures m[y] == r[y]
    {
      assert (m + multiset{x})[y] == (r + multiset{x})[y];
    }
  }

  /** A total does not depend on the order of the dates. */
  lemma {:induction false} TotalPermutation(a: seq<int>, b: seq<int>, size: int -> nat)
    requires multiset(a) == multiset(b)
    ensures Total(a, size) == Total(b, size)
    decreases |a|
  {
    if a == [] {
      assert |b| == |multiset(b)| == 0;
    } else {
      var n := |a| - 1;
      var x := a[n];
      assert a == a[..n] + [x];
      assert x in multiset(b) by {
        assert x in multiset(a);
      }
      var j :| 0 <= j < |b| && b[j] == x;
      RemoveOccurrence(a[..n], x, b, j);
      TotalPermutation(a[..n], b[..j] + b[j + 1..], size);
      TotalSplit(b, j, size);
    }
  }

  /** The total over `b` is the total without position `j` plus the size at `j`. */
  lemma TotalSplit(b: seq<int>, j: int, size: int -> nat)
    requires 0 <= j < |b|
    ensures Total(b, size) == Total(b[..j] + b[j + 1..], size) + size(b[j])
  {
    var x, p, q := b[j], b[..j], b[j + 1..];
    assert b == (p + [x]) + q;
    TotalAppend(p + [x], q, size);
    assert (p + [x])[..|p|] == p;
    TotalAppend(p, q, size);
  }

  /** `getItemCount` for a map with distinct dates: one header per date and one item per task. */
  lemma ItemCount(groups: seq<(int, seq<Task>)>)
    requires DistinctKeys(groups)
    ensures |Flattened(SortedDates(groups), groups)| == |groups| + GroupSizes(groups)
  {
    SortedDatesCorrect(groups);
    FlattenedLength(SortedDates(groups), groups);
    TotalPermutation(SortedDates(groups), Keys(groups), TaskCount(groups));
    TotalOfKeys(groups, |groups|);
    assert Keys(groups)[..|groups|] == Keys(groups);
    assert groups[..|groups|] == groups;
  }

  /** The flattened list of a map with distinct dates: one header per date, newest first, and
      one item per task. */
  lemma FlattenedList(groups: seq<(int, seq<Task>)>)
    requires DistinctKeys(groups)
    ensures var items := Flattened(SortedDates(groups), groups);
      |items| == |groups| + GroupSizes(groups) &&
      HeaderDates(items) == SortedDates(groups) &&
      multiset(HeaderDates(items)) == multiset(Keys(groups)) &&
      (forall i, j :: 0 <= i < j < |HeaderDates(items)| ==> HeaderDates(items)[i] > HeaderDates(items)[j])
  {
    ItemCount(groups);
    FlattenedHeaders(SortedDates(groups), groups);
    SortedDatesCorrect(groups);
    SortedDatesDistinct(groups);
  }

  /** The tasks of the task items, in list order. */
  function ItemTasks(items: seq<Item>): seq<Task>
  {
    if items == [] then []
    else
      var n := |items| - 1;
      ItemTasks(items[..n]) + (if items[n].TaskItem? then [items[n].task] else [])
  }

  lemma {:induction false} ItemTasksAppend(a: seq<Item>, b: seq<Item>)
    ensures ItemTasks(a + b) == ItemTasks(a) + ItemTasks(b)
  {
    if b == [] {
      assert a + b == a;
    } else {
      var n := |b| - 1;
      assert (a + b)[..|a| + n] == a + b[..n];
      ItemTasksAppend(a, b[..n]);
    }
  }

  lemma {:induction false} TaskItemsTasks(tasks: seq<Task>)
    ensures ItemTasks(TaskItems(tasks)) == tasks
  {
    if tasks != [] {
      var n := |tasks| - 1;
      assert TaskItems(tasks)[..n] == TaskItems(tasks[..n]);
      TaskItemsTasks(tasks[..n]);
      assert tasks[..n] + [tasks[n]] == tasks;
    }
  }

  /** The tasks `groupedTasks` lists under the given dates, counted with repetition. */
  function Listed(dates: seq<int>, groups: seq<(int, seq<Task>)>): multiset<Task>
  {
    if dates == [] then multiset{}
    else Listed(dates[..|dates| - 1], groups) + multiset(Lookup(groups, dates[|dates| - 1]))
  }

  /** The task items of the flattened list are the tasks listed under its dates. */
  lemma {:induction false} FlattenedTasks(dates: seq<int>, groups: seq<(int, seq<Task>)>)
    ensures multiset(ItemTasks(Flattened(dates, groups))) == Listed(dates, groups)
  {
    if dates != [] {
      var n := |dates| - 1;
      var front, block := Flattened(dates[..n], groups), Lookup(groups, dates[n]);
      FlattenedTasks(dates[..n], groups);
      ItemTasksAppend(front + [DateItem(dates[n])], TaskItems(block));
      ItemTasksAppend(front, [DateItem(dates[n])]);
      assert ItemTasks([DateItem(dates[n])]) == [];
      TaskItemsTasks(block);
    }
  }

  /** How often `x` is listed under a date. */
  function CountIn(groups: seq<(int, seq<Task>)>, x: Task): int -> nat
  {
    (date: int) => multiset(Lookup(groups, date))[x]
  }

  lemma {:induction false} ListedCount(dates: seq<int>, groups: seq<(int, seq<Task>)>, x: Task)
    ensures Listed(dates, groups)[x] == Total(dates, CountIn(groups, x))
  {
    if dates != [] {
      ListedCount(dates[..|dates| - 1], groups, x);
    }
  }

  /** What is listed does not depend on the order of the dates. */
  lemma ListedPermutation(a: seq<int>, b: seq<int>, groups: seq<(int, seq<Task>)>)
    requires multiset(a) == multiset(b)
    ensures Listed(a, groups) == Listed(b, groups)
  {
    forall x: Task
      ensures Listed(a, groups)[x] == Listed(b, groups)[x]
    {
      ListedCount(a, groups, x);
      ListedCount(b, groups, x);
      TotalPermutation(a, b, CountIn(groups, x));
    }
  }

  /** Listing the first `n` keys of a grouping with distinct keys lists the first `n` groups. */
  lemma {:induction false} ListedOfKeys(groups: seq<(int, seq<Task>)>, n: nat)
    requires DistinctKeys(groups) && n <= |groups|
    ensures Listed(Keys(groups)[..n], groups) == GroupsMultiset(groups[..n])
  {
    if n > 0 {
      ListedOfKeys(groups, n - 1);
      assert Keys(groups)[..n][..n - 1] == Keys(groups)[..n - 1];
      assert groups[..n][..n - 1] == groups[..n - 1];
      LookupKey(groups, n - 1);
    }
  }

  /** For a grouping with distinct dates the task items are the tasks of all the groups. */
  lemma FlattenedGroupsTasks(groups: seq<(int, seq<Task>)>)
    requires DistinctKeys(groups)
    ensures multiset(ItemTasks(Flattened(SortedDates(groups), groups))) == GroupsMultiset(groups)
  {
    var dates := SortedDates(groups);
    FlattenedTasks(dates, groups);
    assert Listed(dates, groups) == Listed(Keys(groups), groups) by {
      SortedDatesCorrect(groups);
      ListedPermutation(dates, Keys(groups), groups);
    }
    assert Listed(Keys(groups), groups) == GroupsMultiset(groups) by {
      ListedOfKeys(groups, |groups|);
      assert Keys(groups)[..|groups|] == Keys(groups);
      assert groups[..|groups|] == groups;
    }
  }

  /** The task items of the completed list are the completed tasks, each as often as it is
      stored. */
  lemma CompletedListTasks(tasks: seq<Task>)
    ensures var groups := GroupBy(CompletedTasks(tasks), DueDay);
      multiset(ItemTasks(Flattened(SortedDates(groups), groups))) == multiset(CompletedTasks(tasks))
  {
    var done := CompletedTasks(tasks);
    var groups := GroupBy(done, DueDay);
    assert DistinctKeys(groups) by {
      GroupByCorrect(done, DueDay);
    }
    FlattenedGroupsTasks(groups);
    GroupByMultiset(done, DueDay);
  }

  /** The date of the last header before position `k`, if any. */
  function HeaderOf(items: seq<Item>, k: nat): Option<int>
    requires k <= |items|
  {
    if k == 0 then None
    else if items[k - 1].DateItem? then Some(items[k - 1].date)
    else HeaderOf(items, k - 1)
  }

  /** Items appended behind position `k` do not change the header before it. */
  lemma {:induction false} HeaderOfPrefix(a: seq<Item>, b: seq<Item>, k: nat)
    requires k <= |a|
    ensures HeaderOf(a + b, k) == HeaderOf(a, k)
  {
    if k > 0 {
      assert (a + b)[k - 1] == a[k - 1];
      HeaderOfPrefix(a, b, k - 1);
    }
  }

  /** Behind a header and up to the next one, that header is the one in force. */
  lemma {:induction false} HeaderAfter(items: seq<Item>, h: nat, k: nat)
    requires h < k <= |items| && items[h].DateItem?
    requires forall m :: h < m < k ==> items[m].TaskItem?
    ensures HeaderOf(items, k) == Some(items[h].date)
    decreases k
  {
    if k - 1 > h {
      HeaderAfter(items, h, k - 1);
    }
  }

  /** Every task item of a list stands under the header of its own due day. */
  ghost predicate UnderOwnHeader(items: seq<Item>)
  {
    forall k :: 0 <= k < |items| && items[k].TaskItem? ==> HeaderOf(items, k) == Some(DueDay(items[k].task))
  }

  /** When every date lists only tasks due that day, the flattened list puts each task under the
      header of its day. */
  lemma {:induction false} FlattenedUnderHeaders(dates: seq<int>, groups: seq<(int, seq<Task>)>)
    requires forall d: int, t: Task :: t in Lookup(groups, d) ==> DueDay(t) == d
    ensures UnderOwnHeader(Flattened(dates, groups))
  {
    if dates != [] {
      var n := |dates| - 1;
      var d := dates[n];
      var front := Flattened(dates[..n], groups);
      var block := TaskItems(Lookup(groups, d));
      var items := Flattened(dates, groups);
      FlattenedUnderHeaders(dates[..n], groups);
      assert items == front + ([DateItem(d)] + block);
      forall k | 0 <= k < |items| && items[k].TaskItem?
        ensures HeaderOf(items, k) == Some(DueDay(items[k].task))
      {
        if k < |front| {
          assert items[k] == front[k];
          HeaderOfPrefix(front, [DateItem(d)] + block, k);
        } else {
          var h := |front|;
          assert k > h && items[h] == DateItem(d);
          assert items[k] == block[k - h - 1];
          assert items[k].task in Lookup(groups, d);
          HeaderAfter(items, h, k);
        }
      }
    }
  }

  /** In the completed list every task stands under the header of the day it is due. */
  lemma CompletedListUnderHeaders(tasks: seq<Task>)
    ensures var groups := GroupBy(CompletedTasks(tasks), DueDay);
      UnderOwnHeader(Flattened(SortedDates(groups), groups))
  {
    var done := CompletedTasks(tasks);
    var groups := GroupBy(done, DueDay);
    GroupByCorrect(done, DueDay);
    forall d: int, t: Task | t in Lookup(groups, d)
      ensures DueDay(t) == d
    {
      var i := GroupIndex(groups, d);
      assert groups[i].1 == Filter(done, HasKey(DueDay, groups[i].0));
    }
    FlattenedUnderHeaders(SortedDates(groups), groups);
  }

  /** For the repository's completed tasks by day the list holds one header per day with a
      completed task and every completed task once, under the header of its day; the headers are
      those days, newest first. */
  lemma CompletedList(tasks: seq<Task>)
    ensures var groups := GroupBy(CompletedTasks(tasks), DueDay);
      var items := Flattened(SortedDates(groups), groups);
      |items| == |groups| + |CompletedTasks(tasks)| &&
      HeaderDates(items) == SortedDates(groups) &&
      multiset(HeaderDates(items)) == multiset(Keys(groups)) &&
      (forall i, j :: 0 <= i < j < |HeaderDates(items)| ==> HeaderDates(items)[i] > HeaderDates(items)[j]) &&
      multiset(ItemTasks(items)) == multiset(CompletedTasks(tasks)) &&
      UnderOwnHeader(items)
  {
    CompletedListTasks(tasks);
    CompletedListUnderHeaders(tasks);
    var done := CompletedTasks(tasks);
    var groups := GroupBy(done, DueDay);
    assert DistinctKeys(groups) by {
      GroupByCorrect(done, DueDay);
    }
    assert GroupSizes(groups) == |done| by {
      GroupBySize(done, DueDay);
    }
    FlattenedList(groups);
  }

  /** Sorting dates that are distinct leaves them distinct, so newest first is strict. */
  lemma SortedDatesDistinct(groups: seq<(int, seq<Task>)>)
    requires DistinctKeys(groups)
    ensures forall i, j :: 0 <= i < j < |SortedDates(groups)| ==> SortedDates(groups)[i] > SortedDates(groups)[j]
  {
    var dates := SortedDates(groups);
    SortedDatesCorrect(groups);
    forall i, j | 0 <= i < j < |dates|
      ensures dates[i] > dates[j]
    {
      if dates[i] == dates[j] {
        var x := dates[i];
        TwiceInMultiset(dates, i, j);
        KeyOnce(groups, x);
        assert false;
      }
    }
  }

  /** A value at two positions occurs at least twice. */
  lemma TwiceInMultiset(s: seq<int>, i: int, j: int)
    requires 0 <= i < j < |s| && s[i] == s[j]
    ensures multiset(s)[s[i]] >= 2
  {
    var x, p, q := s[j], s[..j], s[j + 1..];
    assert s == (p + [x]) + q;
    assert p[i] == x;
    assert multiset(p)[x] >= 1;
  }

  /** A date occurs at most once among the keys of a grouping with distinct keys. */
  lemma {:induction false} KeyOnce(groups: seq<(int, seq<Task>)>, x: int)
    requires DistinctKeys(groups)
    ensures multiset(Keys(groups))[x] <= 1
  {
    if groups != [] {
      var n := |groups| - 1;
      assert DistinctKeys(groups[..n]);
      KeyOnce(groups[..n], x);
      assert Keys(groups) == Keys(groups[..n]) + [groups[n].0];
    }
  }

  // ---------------------------------------------------------------------------------------------
  // Binding

  const Green: string := "#4CAF50"
  const Red: string := "#F44336"

  /** What `DateHeaderViewHolder.bind` shows: the date text and the score, both in one colour. */
  datatype HeaderView = HeaderView(dateText: string, scoreText: string, colour: string)

  function ScoreText(completed: int, total: int): string
  {
    "Score: " + (IntToString(completed) + ("/" + IntToString(total)))
  }

  /** The header of `date` with its (completed, total) score; `formatDateWithDayName` is given. */
  function BindHeader(dateText: string, score: (int, int)): (v: HeaderView)
    ensures v.colour == Green <==> score.0 == score.1 && score.1 > 0
    ensures v.colour == Green || v.colour == Red
  {
    HeaderView(dateText, ScoreText(score.0, score.1),
      if score.0 == score.1 && score.1 > 0 then Green else Red)
  }

  /** The score text gives both numbers back. */
  lemma ScoreTextInjective(c1: nat, t1: nat, c2: nat, t2: nat)
    requires ScoreText(c1, t1) == ScoreText(c2, t2)
    ensures c1 == c2 && t1 == t2
  {
    var r1, r2 := "/" + IntToString(t1), "/" + IntToString(t2);
    DropPrefix("Score: ", IntToString(c1) + r1);
    DropPrefix("Score: ", IntToString(c2) + r2);
    LeadingNumber(c1, c2, r1, r2);
    DropPrefix("/", IntToString(t1));
    DropPrefix("/", IntToString(t2));
    IntToStringInjective(t1, t2);
  }

  /** An empty day scores 0/0 and is shown red. */
  lemma EmptyScoreIsRed(dateText: string)
    ensures BindHeader(dateText, (0, 0)).colour == Red
    ensures BindHeader(dateText, (0, 0)).scoreText == "Score: 0/0"
  {
    assert IntToString(0) == "0";
  }

  /** Every day of the completed list is a midnight on which some task is due and completed. */
  lemma GroupDay(tasks: seq<Task>, i: int) returns (k: int)
    requires 0 <= i < |GroupBy(CompletedTasks(tasks), DueDay)|
    ensures var d := GroupBy(CompletedTasks(tasks), DueDay)[i].0;
      0 <= k < |tasks| && DueDay(tasks[k]) == d && tasks[k].isCompleted && NormalizedDate(d) == d
  {
    var done := CompletedTasks(tasks);
    var groups := GroupBy(done, DueDay);
    GroupByCorrect(done, DueDay);
    GroupBySize(done, DueDay);
    var t0 := groups[i].1[0];
    assert t0 in done && DueDay(t0) == groups[i].0;
    k :| 0 <= k < |tasks| && tasks[k] == t0;
    SameDayIffSameMidnight(Midnight(t0.dueDate), t0.dueDate);
  }

  /** On a day with a task due, the score is full exactly when every task due that day is
      completed, and its total is never 0. */
  lemma FullScore(tasks: seq<Task>, d: int, k: int)
    requires NormalizedDate(d) == d && 0 <= k < |tasks| && DueDay(tasks[k]) == d
    ensures CompletionScore(tasks, d).1 > 0
    ensures CompletionScore(tasks, d).0 == CompletionScore(tasks, d).1 <==>
      forall j :: 0 <= j < |tasks| && DueDay(tasks[j]) == d ==> tasks[j].isCompleted
  {
    var due := Filter(tasks, DueOn(d));
    var isDone := (t: Task) => t.isCompleted;
    assert CompletionScore(tasks, d) == (Count(due, isDone), |due|);
    assert DueOn(d)(tasks[k]);
    CountIsFilterLength(due, isDone);
    FilterShorter(due, isDone);
    if forall j :: 0 <= j < |tasks| && DueDay(tasks[j]) == d ==> tasks[j].isCompleted {
      forall m | 0 <= m < |due|
        ensures due[m].isCompleted
      {
        var j :| 0 <= j < |tasks| && tasks[j] == due[m];
      }
    } else {
      var j :| 0 <= j < |tasks| && DueDay(tasks[j]) == d && !tasks[j].isCompleted;
      assert DueOn(d)(tasks[j]);
      var m :| 0 <= m < |due| && due[m] == tasks[j];
    }
  }

  /** A header of the completed list is green exactly when every task due that day is completed:
      the day has a completed task, so its total is never 0. */
  lemma HeaderColourOfDay(tasks: seq<Task>, i: int, dateText: string)
    requires 0 <= i < |GroupBy(CompletedTasks(tasks), DueDay)|
    ensures var d := GroupBy(CompletedTasks(tasks), DueDay)[i].0;
      BindHeader(dateText, CompletionScore(tasks, d)).colour == Green <==>
        forall j :: 0 <= j < |tasks| && DueDay(tasks[j]) == d ==> tasks[j].isCompleted
  {
    var k := GroupDay(tasks, i);
    FullScore(tasks, GroupBy(CompletedTasks(tasks), DueDay)[i].0, k);
  }

  /** What `CompletedTaskViewHolder.bind` shows; `formatTime` is given. */
  datatype TaskView = TaskView(titleText: string, categoryText: string, completionTimeText: string)

  function BindTask(task: Task, formatTime: int -> string): (v: TaskView)
    ensures v.titleText == task.title && v.categoryText == "Category: " + task.category.name
  {
    TaskView(task.title, "Category: " + task.category.name,
      if task.dueTime.Some? then "Completed: " + formatTime(task.dueTime.value) else "Completed")
  }

  /** The completion shown is "Completed" alone exactly when there is no due time; otherwise it
      carries the formatted due time. */
  lemma CompletionLabel(task: Task, formatTime: int -> string)
    ensures var shown := BindTask(task, formatTime).completionTimeText;
      (shown == "Completed" <==> task.dueTime.None?) &&
      (task.dueTime.Some? ==> shown[..11] == "Completed: " && shown[11..] == formatTime(task.dueTime.value))
  {
    if task.dueTime.Some? {
      var shown := BindTask(task, formatTime).completionTimeText;
      assert |shown| > |"Completed"|;
    }
  }

  /** A bound row of the list. */
  datatype RowView = HeaderRow(header: HeaderView) | TaskRow(task: TaskView)

  // ---------------------------------------------------------------------------------------------
  // The adapter and the fragment

  class CompletedTasksAdapter {
    var items: seq<Item>

    /** `init`: the flattened list of the grouped map, newest date first. */
    constructor (groupedTasks: seq<(int, seq<Task>)>)
      ensures items == Flattened(SortedDates(groupedTasks), groupedTasks)
    {
      var sortedDates := SortedDates(groupedTasks);
      var list: seq<Item> := [];
      for i := 0 to |sortedDates|
        invariant list == Flattened(sortedDates[..i], groupedTasks)
      {
        var date := sortedDates[i];
        list := list + [DateItem(date)];
        var tasks := Lookup(groupedTasks, date);
        list := list + TaskItems(tasks);
        assert sortedDates[..i + 1][..i] == sortedDates[..i];
      }
      assert sortedDates[..|sortedDates|] == sortedDates;
      items := list;
    }

    /** `getItemViewType`: 0 for a date, 1 for a task. */
    function GetItemViewType(position: int): (r: int)
      reads this
      requires 0 <= position < |items|
      ensures r == TypeHeader <==> items[position].DateItem?
      ensures r == TypeTask <==> items[position].TaskItem?
    {
      match items[position]
      case DateItem(_) => TypeHeader
      case TaskItem(_) => TypeTask
    }

    /** `onBindViewHolder`: a header with the repository's score for its date, or a task. */
    function BindAt(position: int, repositoryTasks: seq<Task>, formatDate: int -> string,
                    formatTime: int -> string): (v: RowView)
      reads this
      requires 0 <= position < |items|
      ensures v.HeaderRow? <==> GetItemViewType(position) == TypeHeader
      ensures items[position].DateItem? ==>
        v.header == BindHeader(formatDate(items[position].date), CompletionScore(repositoryTasks, items[position].date))
      ensures items[position].TaskItem? ==> v.task == BindTask(items[position].task, formatTime)
    {
      match items[position]
      case DateItem(date) => HeaderRow(BindHeader(formatDate(date), CompletionScore(repositoryTasks, date)))
      case TaskItem(task) => TaskRow(BindTask(task, formatTime))
    }
  }

  class CompletedTasksFragment {
    const repository: TaskRepository
    var emptyViewVisible: bool
    var adapter: CompletedTasksAdapter?

    constructor (repository: TaskRepository)
      ensures this.repository == repository && !emptyViewVisible && adapter == null
    {
      this.repository := repository;
      emptyViewVisible := false;
      adapter := null;
    }

    /** `setupCompletedTasks`: with no completed task the empty view shows; otherwise a new
        adapter lists the repository's completed tasks by day. */
    method SetupCompletedTasks()
      modifies this
      ensures emptyViewVisible <==> CompletedTasks(repository.tasks) == []
      ensures !emptyViewVisible ==>
        adapter != null && fresh(adapter) &&
        var groups := GroupBy(CompletedTasks(repository.tasks), DueDay);
        adapter.items == Flattened(SortedDates(groups), groups)
      ensures emptyViewVisible ==> adapter == old(adapter)
    {
      var completedTasksGrouped := repository.GetCompletedTasksByDate();
      GroupBySize(CompletedTasks(repository.tasks), DueDay);
      if |completedTasksGrouped| == 0 {
        emptyViewVisible := true;
      } else {
        emptyViewVisible := false;
        adapter := new CompletedTasksAdapter(completedTasksGrouped);
      }
    }
  }
}
