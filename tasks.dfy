/**
 * The task list of the dashboard: an insertion-ordered store of tasks that is
 * persisted after every change and shown in a list element that is brought up
 * to date by a keyed, minimal-change reconciliation (TaskManager in
 * js/modules/tasks.js).
 */
module Tasks {
  import opened Wrappers
  import opened JsStrings

  // ===========================================================================
  // Tasks and the operations on the task sequence
  // ===========================================================================

  datatype Task = Task(id: int, text: string, completed: bool)

  predicate HasId(ts: seq<Task>, id: int) {
    exists k :: 0 <= k < |ts| && ts[k].id == id
  }

  /** No two tasks share an id; the reconciler relies on it. */
  predicate UniqueIds(ts: seq<Task>) {
    forall a, b :: 0 <= a < b < |ts| ==> ts[a].id != ts[b].id
  }

  /** An increasing map of positions that embeds r in s: r keeps the relative order of s. */
  ghost predicate IsEmbedding(f: seq<nat>, r: seq<Task>, s: seq<Task>) {
    && |f| == |r|
    && (forall k :: 0 <= k < |f| ==> f[k] < |s| && r[k] == s[f[k]])
    && (forall a, b :: 0 <= a < b < |f| ==> f[a] < f[b])
  }

  ghost predicate KeepsOrder(r: seq<Task>, s: seq<Task>) {
    exists f :: IsEmbedding(f, r, s)
  }

  /** tasks.filter(task => task.id !== id) */
  function WithoutId(ts: seq<Task>, id: int): (r: seq<Task>)
    ensures forall t :: t in r <==> t in ts && t.id != id
    ensures |r| <= |ts|
  {
    if ts == [] then []
    else if ts[0].id != id then [ts[0]] + WithoutId(ts[1..], id)
    else WithoutId(ts[1..], id)
  }

  function Shifted(g: seq<nat>): (f: seq<nat>)
    ensures |f| == |g| && forall k :: 0 <= k < |g| ==> f[k] == g[k] + 1
  {
    seq(|g|, k requires 0 <= k < |g| => g[k] + 1)
  }

  lemma EmbeddingSkip(g: seq<nat>, r: seq<Task>, s: seq<Task>, x: Task)
    requires IsEmbedding(g, r, s)
    ensures IsEmbedding(Shifted(g), r, [x] + s)
  {
    var f := Shifted(g);
    forall k | 0 <= k < |f| ensures f[k] < |[x] + s| && r[k] == ([x] + s)[f[k]] {
      assert ([x] + s)[f[k]] == s[g[k]];
    }
  }

  lemma EmbeddingCons(g: seq<nat>, r: seq<Task>, s: seq<Task>, x: Task)
    requires IsEmbedding(g, r, s)
    ensures IsEmbedding([0] + Shifted(g), [x] + r, [x] + s)
  {
    var f := [0] + Shifted(g);
    forall k | 0 <= k < |f| ensures f[k] < |[x] + s| && ([x] + r)[k] == ([x] + s)[f[k]] {
      if k > 0 {
        assert f[k] == g[k - 1] + 1;
        assert ([x] + r)[k] == r[k - 1];
        assert ([x] + s)[f[k]] == s[g[k - 1]];
      }
    }
    forall a, b | 0 <= a < b < |f| ensures f[a] < f[b] {
      if a > 0 {
        assert f[a] == g[a - 1] + 1 && f[b] == g[b - 1] + 1;
      }
    }
  }

  /** Deleting keeps the surviving tasks in their original relative order. */
  lemma {:induction false} WithoutIdKeepsOrder(ts: seq<Task>, id: int)
    ensures KeepsOrder(WithoutId(ts, id), ts)
  {
    if ts == [] {
      assert IsEmbedding([], [], ts);
    } else {
      var tail := WithoutId(ts[1..], id);
      WithoutIdKeepsOrder(ts[1..], id);
      var g :| IsEmbedding(g, tail, ts[1..]);
      assert ts == [ts[0]] + ts[1..];
      if ts[0].id != id {
        EmbeddingCons(g, tail, ts[1..], ts[0]);
        assert IsEmbedding([0] + Shifted(g), WithoutId(ts, id), ts);
      } else {
        EmbeddingSkip(g, tail, ts[1..], ts[0]);
        assert IsEmbedding(Shifted(g), WithoutId(ts, id), ts);
      }
    }
  }

  /** After deleting an id no task has it, and with unique ids exactly one task fewer remains when it was there. */
  lemma {:induction false} WithoutIdRemoves(ts: seq<Task>, id: int)
    requires UniqueIds(ts)
    ensures !HasId(WithoutId(ts, id), id)
    ensures HasId(ts, id) ==> |WithoutId(ts, id)| == |ts| - 1
  {
    if ts != [] {
      assert UniqueIds(ts[1..]) by {
        forall a, b | 0 <= a < b < |ts[1..]| ensures ts[1..][a].id != ts[1..][b].id {
          assert ts[1..][a] == ts[a + 1] && ts[1..][b] == ts[b + 1];
        }
      }
      WithoutIdRemoves(ts[1..], id);
      if ts[0].id == id {
        assert !HasId(ts[1..], id) by {
          forall k | 0 <= k < |ts[1..]| ensures ts[1..][k].id != id {
            assert ts[1..][k] == ts[k + 1];
          }
        }
        WithoutAbsentId(ts[1..], id);
      } else if HasId(ts, id) {
        var k :| 0 <= k < |ts| && ts[k].id == id;
        assert ts[1..][k - 1] == ts[k];
      }
    }
  }

  /** Deleting an id that no task has changes nothing. */
  lemma {:induction false} WithoutAbsentId(ts: seq<Task>, id: int)
    requires !HasId(ts, id)
    ensures WithoutId(ts, id) == ts
  {
    if ts != [] {
      assert !HasId(ts[1..], id) by {
        forall k | 0 <= k < |ts[1..]| ensures ts[1..][k].id != id {
          assert ts[1..][k] == ts[k + 1];
        }
      }
      WithoutAbsentId(ts[1..], id);
    }
  }

  lemma {:induction false} WithoutIdUnique(ts: seq<Task>, id: int)
    requires UniqueIds(ts)
    ensures UniqueIds(WithoutId(ts, id))
  {
    if ts != [] {
      assert UniqueIds(ts[1..]) by {
        forall a, b | 0 <= a < b < |ts[1..]| ensures ts[1..][a].id != ts[1..][b].id {
          assert ts[1..][a] == ts[a + 1] && ts[1..][b] == ts[b + 1];
        }
      }
      WithoutIdUnique(ts[1..], id);
      var rest := WithoutId(ts[1..], id);
      if ts[0].id != id {
        forall t | t in rest ensures t.id != ts[0].id {
          var k :| 0 <= k < |ts[1..]| && ts[1..][k] == t;
          assert ts[k + 1] == t;
        }
      }
    }
  }

  /** The position tasks.find(t => t.id === id) stops at, if any. */
  function FirstIndex(ts: seq<Task>, id: int): (r: Option<nat>)
    ensures r.Some? ==> r.value < |ts| && ts[r.value].id == id
    ensures r.Some? ==> forall k :: 0 <= k < r.value ==> ts[k].id != id
    ensures r.None? <==> !HasId(ts, id)
  {
    if ts == [] then None
    else if ts[0].id == id then Some(0)
    else match FirstIndex(ts[1..], id)
      case None => None
      case Some(k) => Some(k + 1)
  }

  /** The task sequence after toggleTask(id): the found task's flag is flipped in place. */
  function Toggled(ts: seq<Task>, id: int): (r: seq<Task>)
    ensures SameIds(r, ts)
    ensures forall k :: 0 <= k < |ts| ==> r[k].text == ts[k].text
  {
    match FirstIndex(ts, id)
    case None => ts
    case Some(k) => ts[k := ts[k].(completed := !ts[k].completed)]
  }

  predicate SameIds(r: seq<Task>, s: seq<Task>) {
    |r| == |s| && forall k :: 0 <= k < |r| ==> r[k].id == s[k].id
  }

  lemma {:induction false} FirstIndexSameIds(r: seq<Task>, s: seq<Task>, id: int)
    requires SameIds(r, s)
    ensures FirstIndex(r, id) == FirstIndex(s, id)
  {
    if r != [] && r[0].id != id {
      assert SameIds(r[1..], s[1..]) by {
        forall k | 0 <= k < |r[1..]| ensures r[1..][k].id == s[1..][k].id {
          assert r[1..][k] == r[k + 1] && s[1..][k] == s[k + 1];
        }
      }
      FirstIndexSameIds(r[1..], s[1..], id);
    }
  }

  /**
   * toggleTask on unique ids flips the flag of the task with that id and of no
   * other task; ids, texts and order stay as they were.
   */
  lemma ToggledEffect(ts: seq<Task>, id: int)
    requires UniqueIds(ts)
    ensures SameIds(Toggled(ts, id), ts) && UniqueIds(Toggled(ts, id))
    ensures forall k :: 0 <= k < |ts| ==>
      && Toggled(ts, id)[k].text == ts[k].text
      && Toggled(ts, id)[k].completed == (if ts[k].id == id then !ts[k].completed else ts[k].completed)
  {
  }

  /** Toggling twice restores the original sequence. */
  lemma ToggledTwice(ts: seq<Task>, id: int)
    ensures Toggled(Toggled(ts, id), id) == ts
  {
    FirstIndexSameIds(Toggled(ts, id), ts, id);
  }

  /** Toggling an id that no task has changes nothing. */
  lemma ToggledAbsent(ts: seq<Task>, id: int)
    requires !HasId(ts, id)
    ensures Toggled(ts, id) == ts
  {
  }

  // ===========================================================================
  // Storage slot 'zenFocusTasks'
  // ===========================================================================

  /**
   * The storage slot, with JSON left abstract: nothing stored, a serialised
   * task sequence, or text that does not parse.
   */
  datatype Slot = Missing | Serialized(tasks: seq<Task>) | Unparsable(raw: string)

  datatype LoadError = SyntaxError

  /** JSON.stringify(tasks), as the slot content. */
  function Serialize(ts: seq<Task>): (slot: Slot)
    ensures Load(slot) == Ok(ts)
  {
    Serialized(ts)
  }

  /** JSON.parse(localStorage.getItem('zenFocusTasks')) || [] */
  function Load(slot: Slot): (r: Result<seq<Task>, LoadError>)
    ensures r.Err? <==> slot.Unparsable?
    ensures slot.Missing? ==> r == Ok([])
  {
    match slot
    case Missing => Ok([])
    case Serialized(ts) => Ok(ts)
    case Unparsable(_) => Err(SyntaxError)
  }

  // ===========================================================================
  // The list element and its task items
  // ===========================================================================

  /** String(task.id): the value kept in an item's data-id. */
  function Key(id: int): (k: string)
    ensures k != ""
  {
    IntString(id)
  }

  lemma KeyInjective(a: int, b: int)
    ensures Key(a) == Key(b) ==> a == b
  {
    if Key(a) == Key(b) {
      IntStringInjective(a, b);
    }
  }

  /** String(bool), as setAttribute writes it. */
  function BoolString(b: bool): string {
    if b then "true" else "false"
  }

  function DeleteLabel(text: string): string {
    "Delete task: " + text
  }

  /** An attribute of an item that updateTaskElement may write. */
  datatype Attribute = CompletedClass | AriaChecked | SpanText | DeleteButtonLabel

  /**
   * A task item: the li with its 'completed' class, the span (text and
   * aria-checked) and the delete button (aria-label). `writes` records every
   * attribute write made to an existing item.
   */
  class TaskNode {
    const dataId: string
    var completed: bool
    var ariaChecked: string
    var text: string
    var deleteLabel: string
    ghost var writes: seq<Attribute>

    constructor (dataId: string, completed: bool, ariaChecked: string, text: string, deleteLabel: string)
      ensures this.dataId == dataId && this.completed == completed && this.ariaChecked == ariaChecked
      ensures this.text == text && this.deleteLabel == deleteLabel && writes == []
    {
      this.dataId := dataId;
      this.completed := completed;
      this.ariaChecked := ariaChecked;
      this.text := text;
      this.deleteLabel := deleteLabel;
      writes := [];
    }
  }

  /** The delete button's label describes the item's text. */
  predicate LabelConsistent(n: TaskNode)
    reads n
  {
    n.deleteLabel == DeleteLabel(n.text)
  }

  /** Item n displays task t. */
  predicate Shows(n: TaskNode, t: Task)
    reads n
  {
    && n.dataId == Key(t.id)
    && n.completed == t.completed
    && n.ariaChecked == BoolString(t.completed)
    && n.text == t.text
    && LabelConsistent(n)
  }

  /** The attributes updateTaskElement must write to make an item show t. */
  function NeededWrites(completed: bool, ariaChecked: string, text: string, t: Task): seq<Attribute> {
    (if completed != t.completed then [CompletedClass] else [])
    + (if ariaChecked != BoolString(t.completed) then [AriaChecked] else [])
    + (if text != t.text then [SpanText, DeleteButtonLabel] else [])
  }

  /**
   * No write at all happens exactly when the item already shows the task, and
   * the delete button's label is written exactly when the text changes.
   */
  lemma NeededWritesMinimal(completed: bool, ariaChecked: string, text: string, t: Task)
    ensures NeededWrites(completed, ariaChecked, text, t) == []
      <==> completed == t.completed && ariaChecked == BoolString(t.completed) && text == t.text
    ensures DeleteButtonLabel in NeededWrites(completed, ariaChecked, text, t) <==> text != t.text
    ensures |NeededWrites(completed, ariaChecked, text, t)| <= 4
  {
    var w := NeededWrites(completed, ariaChecked, text, t);
    if text == t.text {
      assert DeleteButtonLabel !in w;
    }
  }

  function DataIds(ns: seq<TaskNode>): set<string> {
    set n | n in ns :: n.dataId
  }

  /** The data-ids the tasks' items carry. */
  function Keys(ts: seq<Task>): set<string> {
    if ts == [] then {} else Keys(ts[..|ts| - 1]) + {Key(ts[|ts| - 1].id)}
  }

  lemma KeysSnoc(ts: seq<Task>, i: nat)
    requires i < |ts|
    ensures Keys(ts[..i + 1]) == Keys(ts[..i]) + {Key(ts[i].id)}
  {
    assert ts[..i + 1][..i] == ts[..i];
  }

  /** A key is among the keys of a run of tasks exactly when one of them has that id's key. */
  lemma {:induction false} KeysMember(ts: seq<Task>, x: string)
    ensures x in Keys(ts) <==> exists k :: 0 <= k < |ts| && Key(ts[k].id) == x
  {
    if ts != [] {
      var p := ts[..|ts| - 1];
      KeysMember(p, x);
      if x in Keys(p) {
        var k :| 0 <= k < |p| && Key(p[k].id) == x;
        assert ts[k] == p[k];
      }
      if exists k :: 0 <= k < |ts| && Key(ts[k].id) == x {
        var k :| 0 <= k < |ts| && Key(ts[k].id) == x;
        if k < |p| {
          assert p[k] == ts[k];
        }
      }
    }
  }

  /** With unique ids, the i-th task's key is not among the keys of the tasks before it. */
  lemma KeyNotEarlier(ts: seq<Task>, i: nat)
    requires UniqueIds(ts) && i < |ts|
    ensures Key(ts[i].id) !in Keys(ts[..i])
  {
    KeysMember(ts[..i], Key(ts[i].id));
    forall k | 0 <= k < i ensures Key(ts[..i][k].id) != Key(ts[i].id) {
      KeyInjective(ts[k].id, ts[i].id);
    }
  }

  // ---------------------------------------------------------------------------
  // Child-list operations of the DOM, on sequences
  // ---------------------------------------------------------------------------

  predicate Distinct<T(==)>(s: seq<T>) {
    forall a, b :: 0 <= a < b < |s| ==> s[a] != s[b]
  }

  /** The child list after x is detached from it. */
  function Without<T(==)>(s: seq<T>, x: T): (r: seq<T>)
    ensures |r| <= |s|
    ensures x !in s ==> r == s
  {
    if s == [] then []
    else if s[0] == x then Without(s[1..], x)
    else [s[0]] + Without(s[1..], x)
  }

  function IndexOf<T(==)>(s: seq<T>, x: T): (k: nat)
    requires x in s
    ensures k < |s| && s[k] == x && x !in s[..k]
  {
    if s[0] == x then 0 else 1 + IndexOf(s[1..], x)
  }

  /** The child list after insertBefore(x, ref): x is detached, then put right before ref. */
  function InsertedBefore<T(==)>(s: seq<T>, x: T, ref: T): (r: seq<T>)
    requires ref in s
    ensures x in r && |r| <= |s| + 1
  {
    if x == ref then s
    else
      var rest := Without(s, x);
      WithoutKeeps(s, x, ref);
      var j := IndexOf(rest, ref);
      rest[..j] + [x] + rest[j..]
  }

  /** Detaching x keeps every other child. */
  lemma {:induction false} WithoutKeeps<T>(s: seq<T>, x: T, y: T)
    requires y in s && y != x
    ensures y in Without(s, x)
  {
    if s[0] != y {
      WithoutKeeps(s[1..], x, y);
    }
  }

  lemma {:induction false} WithoutAfterPrefix<T>(a: seq<T>, b: seq<T>, x: T)
    requires x !in a
    ensures Without(a + b, x) == a + Without(b, x)
  {
    if a != [] {
      assert (a + b)[1..] == a[1..] + b;
      WithoutAfterPrefix(a[1..], b, x);
    } else {
      assert a + b == b;
    }
  }

  /**
   * insertBefore(x, s[i]) on a list without duplicates, when x is not among
   * the first i children: the first i children stay, x comes next, and the
   * rest is the old suffix without x.
   */
  lemma InsertedBeforeAt<T>(s: seq<T>, i: nat, x: T)
    requires Distinct(s) && i < |s| && x != s[i] && x !in s[..i]
    ensures InsertedBefore(s, x, s[i]) == s[..i] + [x] + Without(s[i..], x)
  {
    var rest := Without(s, x);
    assert s == s[..i] + s[i..];
    WithoutAfterPrefix(s[..i], s[i..], x);
    assert rest == s[..i] + Without(s[i..], x);
    assert Without(s[i..], x)[0] == s[i];
    assert rest[i] == s[i];
    assert s[i] !in rest[..i] by {
      assert rest[..i] == s[..i];
    }
    assert IndexOf(rest, s[i]) == i;
  }

  lemma DistinctTail<T>(s: seq<T>)
    requires Distinct(s) && s != []
    ensures Distinct(s[1..]) && s[0] !in s[1..]
  {
    var t := s[1..];
    forall a, b | 0 <= a < b < |t| ensures t[a] != t[b] {
      assert t[a] == s[a + 1] && t[b] == s[b + 1];
    }
    forall k | 0 <= k < |t| ensures t[k] != s[0] {
      assert t[k] == s[k + 1];
    }
  }

  lemma {:induction false} WithoutAt<T>(s: seq<T>, p: nat)
    requires Distinct(s) && p < |s|
    ensures Without(s, s[p]) == s[..p] + s[p + 1..]
  {
    DistinctTail(s);
    var t := s[1..];
    if p == 0 {
      assert Without(s, s[0]) == Without(t, s[0]) == t;
      assert s[..0] + s[1..] == t;
    } else {
      assert t[p - 1] == s[p];
      assert s[0] != s[p];
      WithoutAt(t, p - 1);
      assert Without(s, s[p]) == [s[0]] + Without(t, s[p]);
      assert [s[0]] + (t[..p - 1] + t[p..]) == s[..p] + s[p + 1..];
    }
  }

  /** Every item has a non-empty data-id and no two items share one. */
  predicate KeyedItems(ns: seq<TaskNode>) {
    && (forall k :: 0 <= k < |ns| ==> ns[k].dataId != "")
    && (forall a, b :: 0 <= a < b < |ns| ==> ns[a].dataId != ns[b].dataId)
  }

  /**
   * The data-id table of a run of items: every item of the run is found under
   * its own data-id, and every entry is an item of the run.
   */
  ghost predicate TableOf(table: map<string, TaskNode>, items: seq<TaskNode>) {
    && (forall k :: 0 <= k < |items| ==> items[k].dataId in table && table[items[k].dataId] == items[k])
    && (forall key :: key in table ==> table[key] in items && table[key].dataId == key)
  }

  lemma DistinctSnoc<T>(s: seq<T>, x: T)
    requires Distinct(s) && x !in s
    ensures Distinct(s + [x])
  {
    DistinctJoin(s, [x]);
  }

  /** A list without duplicates splits into two lists without duplicates that share nothing. */
  lemma DistinctSplit<T>(s: seq<T>, i: nat)
    requires Distinct(s) && i <= |s|
    ensures Distinct(s[..i]) && Distinct(s[i..])
    ensures forall x :: x in s[i..] ==> x !in s[..i]
  {
    var pre, post := s[..i], s[i..];
    forall a, b | 0 <= a < b < |post| ensures post[a] != post[b] {
      assert post[a] == s[i + a] && post[b] == s[i + b];
    }
    forall x | x in post ensures x !in pre {
      var b :| 0 <= b < |post| && post[b] == x;
      assert s[i + b] == x;
      assert forall a :: 0 <= a < i ==> pre[a] == s[a] != s[i + b];
    }
  }

  /** Two lists without duplicates that share nothing join into one without duplicates. */
  lemma DistinctJoin<T>(a: seq<T>, b: seq<T>)
    requires Distinct(a) && Distinct(b) && forall x :: x in b ==> x !in a
    ensures Distinct(a + b)
  {
    var d := a + b;
    forall u, v | 0 <= u < v < |d| ensures d[u] != d[v] {
      if v < |a| {
        assert d[u] == a[u] && d[v] == a[v];
      } else if u >= |a| {
        assert d[u] == b[u - |a|] && d[v] == b[v - |a|];
      } else {
        assert d[u] == a[u] && d[v] == b[v - |a|];
        assert d[v] in b;
      }
    }
  }

  /** Dropping one element keeps a list free of duplicates, and the element is gone. */
  lemma DistinctDropAt<T>(s: seq<T>, p: nat)
    requires Distinct(s) && p < |s|
    ensures Distinct(s[..p] + s[p + 1..]) && s[p] !in s[..p] + s[p + 1..]
  {
    var d := s[..p] + s[p + 1..];
    forall a, b | 0 <= a < b < |d| ensures d[a] != d[b] {
      var a' := if a < p then a else a + 1;
      var b' := if b < p then b else b + 1;
      assert d[a] == s[a'] && d[b] == s[b'];
    }
    forall k | 0 <= k < |d| ensures d[k] != s[p] {
      var k' := if k < p then k else k + 1;
      assert d[k] == s[k'];
    }
  }

  /** Dropping the item at q from a run drops its entry from the run's table. */
  lemma TableDrop(tail: seq<TaskNode>, q: nat, table: map<string, TaskNode>)
    requires Distinct(tail) && q < |tail| && TableOf(table, tail)
    ensures TableOf(table - {tail[q].dataId}, tail[..q] + tail[q + 1..])
  {
    var key := tail[q].dataId;
    var left := table - {key};
    var d := tail[..q] + tail[q + 1..];
    forall k | 0 <= k < |d| ensures d[k].dataId in left && left[d[k].dataId] == d[k] {
      var j := if k < q then k else k + 1;
      assert d[k] == tail[j];
      assert table[tail[j].dataId] == tail[j] && tail[j] != tail[q];
    }
    forall key' | key' in left ensures left[key'] in d {
      var r :| 0 <= r < |tail| && tail[r] == table[key'];
      assert r != q;
      if r < q {
        assert d[r] == tail[r];
      } else {
        assert d[r - 1] == tail[r];
      }
    }
  }

  /** On items with distinct non-empty data-ids, the table render builds is their table. */
  lemma IdTableOf(table: map<string, TaskNode>, items: seq<TaskNode>)
    requires KeyedItems(items)
    requires forall key :: key in table ==> key != "" && table[key] in items && table[key].dataId == key
    requires forall k :: 0 <= k < |items| && items[k].dataId != "" ==> items[k].dataId in table
    ensures TableOf(table, items)
  {
    forall k | 0 <= k < |items| ensures table[items[k].dataId] == items[k] {
      var m :| 0 <= m < |items| && items[m] == table[items[k].dataId];
    }
  }

  /** The first i items keep showing their tasks, and the next one shows task i. */
  lemma ShowsExtended(all: seq<TaskNode>, all': seq<TaskNode>, ts: seq<Task>, i: nat)
    requires i < |ts| && i < |all'| && i <= |all| && all'[..i] == all[..i]
    requires forall k :: 0 <= k < i ==> Shows(all[k], ts[k])
    requires Shows(all'[i], ts[i])
    ensures forall k :: 0 <= k < i + 1 ==> Shows(all'[k], ts[k])
  {
    assert forall k :: 0 <= k < i ==> all'[k] == all[k];
  }

  /** An empty table belongs only to an empty run. */
  lemma TableOfEmpty(items: seq<TaskNode>)
    ensures TableOf(map[], items) ==> items == []
  {
    var empty: map<string, TaskNode> := map[];
    if items != [] {
      assert items[0].dataId !in empty;
    }
  }

  /** The wanted item already sits at position i. */
  lemma StepInPlace(all: seq<TaskNode>, i: nat, table: map<string, TaskNode>)
    requires Distinct(all) && i < |all| && TableOf(table, all[i..])
    ensures TableOf(table - {all[i].dataId}, all[i + 1..])
  {
    var tail := all[i..];
    DistinctSplit(all, i);
    assert tail[..0] + tail[1..] == all[i + 1..];
    TableDrop(tail, 0, table);
  }

  /** The wanted item is retained further right: insertBefore moves it to position i. */
  lemma StepMove(all: seq<TaskNode>, i: nat, table: map<string, TaskNode>, li: TaskNode)
    requires Distinct(all) && i < |all| && TableOf(table, all[i..])
    requires li.dataId in table && table[li.dataId] == li && li != all[i]
    ensures |InsertedBefore(all, li, all[i])| == |all|
    ensures InsertedBefore(all, li, all[i])[..i] == all[..i]
    ensures InsertedBefore(all, li, all[i])[i] == li
    ensures Distinct(InsertedBefore(all, li, all[i]))
    ensures TableOf(table - {li.dataId}, InsertedBefore(all, li, all[i])[i + 1..])
    ensures multiset(InsertedBefore(all, li, all[i])) == multiset(all)
  {
    var tail := all[i..];
    var q :| 0 <= q < |tail| && tail[q] == li;
    DistinctSplit(all, i);
    InsertedBeforeAt(all, i, li);
    WithoutAt(tail, q);
    var rest := tail[..q] + tail[q + 1..];
    ghost var moved := all[..i] + [li] + rest;
    assert InsertedBefore(all, li, all[i]) == moved;
    assert moved[..i] == all[..i] && moved[i] == li;
    MovedDistinct(all, i, q);
    assert Distinct(moved);
    TableDrop(tail, q, table);
    assert moved[i + 1..] == rest;
    assert TableOf(table - {li.dataId}, moved[i + 1..]);
    MovedMultiset(all, i, q);
  }

  lemma MovedDistinct<T>(all: seq<T>, i: nat, q: nat)
    requires Distinct(all) && i + q < |all|
    ensures Distinct(all[..i] + [all[i..][q]] + (all[i..][..q] + all[i..][q + 1..]))
  {
    var tail := all[i..];
    var rest := tail[..q] + tail[q + 1..];
    DistinctSplit(all, i);
    DistinctDropAt(tail, q);
    assert forall x :: x in [tail[q]] + rest ==> x in tail;
    DistinctJoin([tail[q]], rest);
    DistinctJoin(all[..i], [tail[q]] + rest);
    assert all[..i] + ([tail[q]] + rest) == all[..i] + [tail[q]] + rest;
  }

  lemma MovedMultiset<T>(all: seq<T>, i: nat, q: nat)
    requires i + q < |all|
    ensures multiset(all[..i] + [all[i..][q]] + (all[i..][..q] + all[i..][q + 1..])) == multiset(all)
  {
    var tail := all[i..];
    assert tail == tail[..q] + [tail[q]] + tail[q + 1..];
    assert all == all[..i] + tail;
  }

  /** The wanted item is new: insertBefore puts it at position i, shifting the rest right. */
  lemma StepInsertNew(all: seq<TaskNode>, i: nat, table: map<string, TaskNode>, li: TaskNode)
    requires Distinct(all) && i < |all| && TableOf(table, all[i..])
    requires li !in all
    ensures InsertedBefore(all, li, all[i]) == all[..i] + [li] + all[i..]
    ensures |InsertedBefore(all, li, all[i])| == |all| + 1
    ensures InsertedBefore(all, li, all[i])[..i] == all[..i] && InsertedBefore(all, li, all[i])[i] == li
    ensures Distinct(InsertedBefore(all, li, all[i]))
    ensures TableOf(table, InsertedBefore(all, li, all[i])[i + 1..])
  {
    InsertNewShape(all, i, li);
    InsertedFacts(all, i, li, table, InsertedBefore(all, li, all[i]));
  }

  lemma InsertNewShape<T>(all: seq<T>, i: nat, li: T)
    requires Distinct(all) && i < |all| && li !in all
    ensures InsertedBefore(all, li, all[i]) == all[..i] + [li] + all[i..]
  {
    assert li != all[i];
    assert li !in all[..i];
    InsertedBeforeAt(all, i, li);
    assert Without(all[i..], li) == all[i..];
  }

  lemma InsertedFacts(all: seq<TaskNode>, i: nat, li: TaskNode, table: map<string, TaskNode>, r: seq<TaskNode>)
    requires Distinct(all) && i < |all| && TableOf(table, all[i..]) && li !in all
    requires r == all[..i] + [li] + all[i..]
    ensures |r| == |all| + 1 && r[..i] == all[..i] && r[i] == li
    ensures Distinct(r)
    ensures TableOf(table, r[i + 1..])
  {
    InsertedDistinct(all, i, li);
    assert r[..i] == all[..i];
    assert r[i + 1..] == all[i..];
    assert TableOf(table, r[i + 1..]);
  }

  lemma InsertedDistinct<T>(all: seq<T>, i: nat, x: T)
    requires Distinct(all) && i <= |all| && x !in all
    ensures Distinct(all[..i] + [x] + all[i..])
  {
    DistinctSplit(all, i);
    assert all == all[..i] + all[i..];
    DistinctJoin([x], all[i..]);
    DistinctJoin(all[..i], [x] + all[i..]);
    assert all[..i] + ([x] + all[i..]) == all[..i] + [x] + all[i..];
  }

  /** The item removed from a run, and its table entry, are both gone. */
  lemma TableDropSuffix(s: seq<TaskNode>, n: nat, table: map<string, TaskNode>, key: string, q: nat)
    requires Distinct(s) && n <= |s| && TableOf(table, s[n..]) && key in table
    requires q < |s| - n && s[n..][q] == table[key]
    ensures TableOf(table - {key}, s[n..][..q] + s[n..][q + 1..])
  {
    DistinctSplit(s, n);
    TableDrop(s[n..], q, table);
  }

  lemma DropAtSplit(s: seq<TaskNode>, n: nat, q: nat)
    requires n + q < |s|
    ensures (s[..n + q] + s[n + q + 1..])[..n] == s[..n]
    ensures (s[..n + q] + s[n + q + 1..])[n..] == s[n..][..q] + s[n..][q + 1..]
  {
  }

  /** Removing a stale item keeps the placed prefix and the table of what is left. */
  lemma SweepStep(s: seq<TaskNode>, n: nat, table: map<string, TaskNode>, key: string)
    requires Distinct(s) && n <= |s| && TableOf(table, s[n..]) && key in table
    ensures n <= |Without(s, table[key])|
    ensures Without(s, table[key])[..n] == s[..n]
    ensures Distinct(Without(s, table[key]))
    ensures TableOf(table - {key}, Without(s, table[key])[n..])
  {
    var q :| 0 <= q < |s[n..]| && s[n..][q] == table[key];
    var p := n + q;
    ghost var s' := s[..p] + s[p + 1..];
    assert Without(s, table[key]) == s' by {
      assert s[p] == table[key];
      WithoutAt(s, p);
    }
    assert Distinct(s') by {
      DistinctDropAt(s, p);
    }
    assert s'[..n] == s[..n] && s'[n..] == s[n..][..q] + s[n..][q + 1..] by {
      DropAtSplit(s, n, q);
    }
    assert TableOf(table - {key}, s'[n..]) by {
      TableDropSuffix(s, n, table, key, q);
    }
  }

  // ---------------------------------------------------------------------------
  // The arrangement render keeps while it places the tasks one by one
  // ---------------------------------------------------------------------------

  /**
   * After the first i tasks of ts are placed: 'all' (the list followed by the
   * pending fragment) carries their ids in its first i positions, the table
   * lists exactly the items after them and is the initial table t0 without
   * the placed ids, and a placed task whose id t0 knows got t0's item.
   */
  ghost predicate Arranged(i: nat, existing: map<string, TaskNode>, all: seq<TaskNode>, t0: map<string, TaskNode>, ts: seq<Task>) {
    && i <= |ts| && i <= |all|
    && Distinct(all)
    && (forall k :: 0 <= k < i ==> all[k].dataId == Key(ts[k].id))
    && TableOf(existing, all[i..])
    && existing == t0 - Keys(ts[..i])
    && (forall k :: 0 <= k < i && Key(ts[k].id) in t0 ==> all[k] == t0[Key(ts[k].id)])
  }

  /** Deleting a key that is not there leaves the table as it was. */
  lemma RemoveAbsent(m: map<string, TaskNode>, key: string)
    requires key !in m
    ensures m - {key} == m
  {
    assert forall k :: k in m - {key} <==> k in m;
  }

  /** Deleting the keys of ks and then k is deleting the keys of ks + {k}. */
  lemma MinusOneMore(m: map<string, TaskNode>, ks: set<string>, k: string)
    ensures (m - ks) - {k} == m - (ks + {k})
  {
    assert forall x :: x in (m - ks) - {k} <==> x in m - (ks + {k});
  }

  /** Deleting a further key that m lacks deletes nothing more. */
  lemma MinusAbsent(m: map<string, TaskNode>, ks: set<string>, k: string)
    requires k !in m
    ensures m - (ks + {k}) == m - ks
  {
    assert forall x :: x in m - (ks + {k}) <==> x in m - ks;
  }

  /** The table of the whole old list starts the arrangement. */
  lemma ArrangedStart(t0: map<string, TaskNode>, before: seq<TaskNode>, ts: seq<Task>)
    requires Distinct(before) && TableOf(t0, before)
    ensures Arranged(0, t0, before, t0, ts)
  {
    assert before[0..] == before;
    assert Keys(ts[..0]) == {};
    assert t0 - {} == t0;
  }

  /** Placing the item filed under the i-th task's id keeps the arrangement. */
  lemma ArrangedReuse(i: nat, existing: map<string, TaskNode>, all: seq<TaskNode>, all': seq<TaskNode>,
                      t0: map<string, TaskNode>, ts: seq<Task>)
    requires Arranged(i, existing, all, t0, ts) && i < |ts|
    requires Key(ts[i].id) in existing
    requires i < |all'| && all'[..i] == all[..i] && all'[i] == existing[Key(ts[i].id)]
    requires Distinct(all') && TableOf(existing - {Key(ts[i].id)}, all'[i + 1..])
    ensures Arranged(i + 1, existing - {Key(ts[i].id)}, all', t0, ts)
  {
    var key := Key(ts[i].id);
    KeysSnoc(ts, i);
    MinusOneMore(t0, Keys(ts[..i]), key);
    assert existing[key].dataId == key && existing[key] == t0[key];
    PrefixKeyedStep(i, all, all', ts);
    PrefixReusedStep(i, all, all', t0, ts);
  }

  lemma PrefixKeyedStep(i: nat, all: seq<TaskNode>, all': seq<TaskNode>, ts: seq<Task>)
    requires i <= |all| && i < |all'| && i < |ts| && all'[..i] == all[..i]
    requires forall k :: 0 <= k < i ==> all[k].dataId == Key(ts[k].id)
    requires all'[i].dataId == Key(ts[i].id)
    ensures forall k :: 0 <= k < i + 1 ==> all'[k].dataId == Key(ts[k].id)
  {
    assert forall k :: 0 <= k < i ==> all'[k] == all'[..i][k];
  }

  lemma PrefixReusedStep(i: nat, all: seq<TaskNode>, all': seq<TaskNode>, t0: map<string, TaskNode>, ts: seq<Task>)
    requires i <= |all| && i < |all'| && i < |ts| && all'[..i] == all[..i]
    requires forall k :: 0 <= k < i && Key(ts[k].id) in t0 ==> all[k] == t0[Key(ts[k].id)]
    requires Key(ts[i].id) in t0 ==> all'[i] == t0[Key(ts[i].id)]
    ensures forall k :: 0 <= k < i + 1 && Key(ts[k].id) in t0 ==> all'[k] == t0[Key(ts[k].id)]
  {
    assert forall k :: 0 <= k < i ==> all'[k] == all'[..i][k];
  }

  /** Placing a new item for the i-th task, whose id the table lacks, keeps the arrangement. */
  lemma ArrangedCreate(i: nat, existing: map<string, TaskNode>, all: seq<TaskNode>, all': seq<TaskNode>,
                       t0: map<string, TaskNode>, ts: seq<Task>, li: TaskNode)
    requires Arranged(i, existing, all, t0, ts) && UniqueIds(ts) && i < |ts|
    requires Key(ts[i].id) !in existing && li.dataId == Key(ts[i].id)
    requires i < |all'| && all'[..i] == all[..i] && all'[i] == li
    requires Distinct(all') && TableOf(existing, all'[i + 1..])
    ensures Arranged(i + 1, existing, all', t0, ts)
  {
    KeysSnoc(ts, i);
    KeyNotEarlier(ts, i);
    assert Key(ts[i].id) !in t0;
    MinusAbsent(t0, Keys(ts[..i]), Key(ts[i].id));
    PrefixKeyedStep(i, all, all', ts);
    PrefixReusedStep(i, all, all', t0, ts);
  }

  /** render moves the item filed under the i-th task's id from further right to position i. */
  lemma PlaceMoved(i: nat, existing: map<string, TaskNode>, all: seq<TaskNode>, all': seq<TaskNode>,
                   t0: map<string, TaskNode>, ts: seq<Task>)
    requires Arranged(i, existing, all, t0, ts) && i < |ts| && i < |all|
    requires Key(ts[i].id) in existing && existing[Key(ts[i].id)] != all[i]
    requires all' == InsertedBefore(all, existing[Key(ts[i].id)], all[i])
    ensures Arranged(i + 1, existing - {Key(ts[i].id)}, all', t0, ts)
    ensures i < |all'| && all'[..i] == all[..i] && all'[i] == existing[Key(ts[i].id)]
  {
    var li := existing[Key(ts[i].id)];
    assert li.dataId == Key(ts[i].id);
    StepMove(all, i, existing, li);
    ArrangedReuse(i, existing, all, all', t0, ts);
  }

  /** render finds the item filed under the i-th task's id already at position i. */
  lemma PlaceInPlace(i: nat, existing: map<string, TaskNode>, all: seq<TaskNode>, t0: map<string, TaskNode>, ts: seq<Task>)
    requires Arranged(i, existing, all, t0, ts) && i < |ts| && i < |all|
    requires Key(ts[i].id) in existing && existing[Key(ts[i].id)] == all[i]
    ensures Arranged(i + 1, existing - {Key(ts[i].id)}, all, t0, ts)
  {
    StepInPlace(all, i, existing);
    ArrangedReuse(i, existing, all, all, t0, ts);
  }

  /** render inserts a new item for the i-th task before the child at position i. */
  lemma PlaceInserted(i: nat, existing: map<string, TaskNode>, all: seq<TaskNode>, all': seq<TaskNode>,
                      t0: map<string, TaskNode>, ts: seq<Task>, li: TaskNode)
    requires Arranged(i, existing, all, t0, ts) && UniqueIds(ts) && i < |ts| && i < |all|
    requires Key(ts[i].id) !in existing && li !in all && li.dataId == Key(ts[i].id)
    requires all' == InsertedBefore(all, li, all[i])
    ensures Arranged(i + 1, existing - {Key(ts[i].id)}, all', t0, ts)
    ensures i < |all'| && all'[..i] == all[..i] && all'[i] == li
  {
    StepInsertNew(all, i, existing, li);
    ArrangedCreate(i, existing, all, all', t0, ts, li);
    RemoveAbsent(existing, Key(ts[i].id));
  }

  /** render adds a new item for the i-th task at the end, through the fragment. */
  lemma PlaceAppended(i: nat, existing: map<string, TaskNode>, all: seq<TaskNode>,
                      t0: map<string, TaskNode>, ts: seq<Task>, li: TaskNode)
    requires Arranged(i, existing, all, t0, ts) && UniqueIds(ts) && i < |ts| && |all| == i
    requires li !in all && li.dataId == Key(ts[i].id)
    ensures existing == map[]
    ensures Arranged(i + 1, existing, all + [li], t0, ts)
  {
    assert all[i..] == [];
    assert existing == map[];
    DistinctSnoc(all, li);
    assert (all + [li])[..i] == all;
    assert (all + [li])[i + 1..] == [];
    ArrangedCreate(i, existing, all, all + [li], t0, ts, li);
  }

  /**
   * The items render creates: after step i, every item for a task whose id
   * had no old item is among them.
   */
  lemma MadeStep(i: nat, all: seq<TaskNode>, all': seq<TaskNode>, ts: seq<Task>, t0: map<string, TaskNode>,
                 made: set<TaskNode>, li: TaskNode) returns (made': set<TaskNode>)
    requires i < |ts| && i < |all'| && i <= |all| && all'[..i] == all[..i] && all'[i] == li
    requires forall k :: 0 <= k < i ==> Key(ts[k].id) in t0 || all[k] in made
    ensures forall k :: 0 <= k < i + 1 ==> Key(ts[k].id) in t0 || all'[k] in made'
    ensures made <= made'
    ensures forall n :: n in made' && n !in made ==> n == li && Key(ts[i].id) !in t0
  {
    made' := if Key(ts[i].id) in t0 then made else made + {li};
    assert forall k :: 0 <= k < i ==> all'[k] == all[k];
  }

  /** What the table holds for the i-th task's id, given the arrangement before step i. */
  lemma ArrangedLookup(i: nat, existing: map<string, TaskNode>, all: seq<TaskNode>, t0: map<string, TaskNode>, ts: seq<Task>)
    requires Arranged(i, existing, all, t0, ts) && i < |ts|
    ensures i <= |all|
    ensures Key(ts[i].id) !in t0 ==> Key(ts[i].id) !in existing
    ensures Key(ts[i].id) in existing ==>
      && existing[Key(ts[i].id)].dataId == Key(ts[i].id)
      && existing[Key(ts[i].id)] in all[i..] && existing[Key(ts[i].id)] !in all[..i]
  {
    DistinctSplit(all, i);
  }

  /**
   * Step i of render's loop on 'all' (the list followed by the pending
   * fragment): the item li for the i-th task ends up at position i, moved
   * there, inserted there, already there, or appended through the fragment
   * when the list has no child at i.
   */
  lemma PlaceStep(i: nat, existing: map<string, TaskNode>, children: seq<TaskNode>, fragment: seq<TaskNode>,
                  t0: map<string, TaskNode>, ts: seq<Task>, li: TaskNode) returns (all': seq<TaskNode>)
    requires Arranged(i, existing, children + fragment, t0, ts) && UniqueIds(ts) && i < |ts|
    requires fragment != [] ==> |children + fragment| == i
    requires Key(ts[i].id) in existing ==> li == existing[Key(ts[i].id)]
    requires Key(ts[i].id) !in existing ==> li !in children + fragment && li.dataId == Key(ts[i].id)
    ensures i < |children| ==>
      all' == (if children[i] == li then children else InsertedBefore(children, li, children[i])) + fragment
    ensures i >= |children| ==> all' == Without(children, li) + (fragment + [li])
    ensures Arranged(i + 1, existing - {Key(ts[i].id)}, all', t0, ts)
    ensures i < |all'| && all'[..i] == (children + fragment)[..i] && all'[i] == li
  {
    if i >= |children| {
      all' := PlaceAtEnd(i, existing, children, fragment, t0, ts, li);
    } else {
      assert fragment == [] && children + fragment == children;
      all' := PlaceWithin(i, existing, children, t0, ts, li);
      assert all' + fragment == all';
    }
  }

  /** PlaceStep when the list has no child at position i. */
  lemma PlaceAtEnd(i: nat, existing: map<string, TaskNode>, children: seq<TaskNode>, fragment: seq<TaskNode>,
                   t0: map<string, TaskNode>, ts: seq<Task>, li: TaskNode) returns (all': seq<TaskNode>)
    requires Arranged(i, existing, children + fragment, t0, ts) && UniqueIds(ts) && i < |ts|
    requires i >= |children| && (fragment != [] ==> |children + fragment| == i)
    requires Key(ts[i].id) !in existing ==> li !in children + fragment && li.dataId == Key(ts[i].id)
    ensures all' == Without(children, li) + (fragment + [li])
    ensures Arranged(i + 1, existing - {Key(ts[i].id)}, all', t0, ts)
    ensures i < |all'| && all'[..i] == (children + fragment)[..i] && all'[i] == li
  {
    var all := children + fragment;
    ArrangedLookup(i, existing, all, t0, ts);
    all' := all + [li];
    PlaceAppended(i, existing, all, t0, ts, li);
    RemoveAbsent(existing, Key(ts[i].id));
    assert all'[..i] == all;
    assert Without(children, li) == children;
  }

  /** PlaceStep when the list has a child at position i (and so no pending fragment). */
  lemma PlaceWithin(i: nat, existing: map<string, TaskNode>, children: seq<TaskNode>,
                    t0: map<string, TaskNode>, ts: seq<Task>, li: TaskNode) returns (all': seq<TaskNode>)
    requires Arranged(i, existing, children, t0, ts) && UniqueIds(ts) && i < |ts| && i < |children|
    requires Key(ts[i].id) in existing ==> li == existing[Key(ts[i].id)]
    requires Key(ts[i].id) !in existing ==> li !in children && li.dataId == Key(ts[i].id)
    ensures all' == if children[i] == li then children else InsertedBefore(children, li, children[i])
    ensures Arranged(i + 1, existing - {Key(ts[i].id)}, all', t0, ts)
    ensures i < |all'| && all'[..i] == children[..i] && all'[i] == li
  {
    if children[i] != li {
      all' := InsertedBefore(children, li, children[i]);
      if Key(ts[i].id) in existing {
        PlaceMoved(i, existing, children, all', t0, ts);
      } else {
        PlaceInserted(i, existing, children, all', t0, ts, li);
      }
    } else {
      all' := children;
      PlaceInPlace(i, existing, children, t0, ts);
    }
  }

  /**
   * After the last step, the first |ts| items are keyed by the tasks' ids in
   * order, and every old item whose id belongs to a task sits at that task's
   * position.
   */
  lemma RenderOutcome(existing: map<string, TaskNode>, all: seq<TaskNode>, t0: map<string, TaskNode>,
                      ts: seq<Task>, before: seq<TaskNode>, made: set<TaskNode>)
    requires Arranged(|ts|, existing, all, t0, ts) && UniqueIds(ts)
    requires KeyedItems(before) && TableOf(t0, before)
    requires forall k :: 0 <= k < |ts| ==> Key(ts[k].id) in t0 || all[k] in made
    ensures Distinct(all[..|ts|]) && KeyedItems(all[..|ts|])
    ensures forall c, k :: c in before && 0 <= k < |ts| && c.dataId == Key(ts[k].id) ==> all[k] == c
    ensures forall k :: 0 <= k < |ts| ==>
              all[k] in before || (all[k] in made && Key(ts[k].id) !in DataIds(before))
  {
    var n := |ts|;
    DistinctSplit(all, n);
    var placed := all[..n];
    forall a, b | 0 <= a < b < n ensures placed[a].dataId != placed[b].dataId {
      KeyInjective(ts[a].id, ts[b].id);
    }
    forall k | 0 <= k < n ensures all[k] in before || (all[k] in made && Key(ts[k].id) !in DataIds(before)) {
      if Key(ts[k].id) in DataIds(before) {
        var c :| c in before && c.dataId == Key(ts[k].id);
        assert t0[c.dataId] == c;
      }
    }
  }

  /** The ul element; its children are task items. */
  class TaskList {
    var children: seq<TaskNode>

    constructor (children: seq<TaskNode>)
      ensures this.children == children
    {
      this.children := children;
    }

    /** listElement.innerHTML = '' */
    method Clear()
      modifies this
      ensures children == []
    {
      children := [];
    }

    /** listElement.insertBefore(node, ref) */
    method InsertBefore(node: TaskNode, ref: TaskNode)
      requires ref in children
      modifies this
      ensures children == InsertedBefore(old(children), node, ref)
    {
      children := InsertedBefore(children, node, ref);
    }

    /** node.remove(), or the implicit detach when a node is appended elsewhere. */
    method Detach(node: TaskNode)
      modifies this
      ensures children == Without(old(children), node)
    {
      children := Without(children, node);
    }

    /**
     * The Map render builds from the children: every child with a non-empty
     * data-id is filed under it.
     */
    method IdTable() returns (table: map<string, TaskNode>)
      ensures forall key :: key in table ==> key != "" && table[key] in children && table[key].dataId == key
      ensures forall k :: 0 <= k < |children| && children[k].dataId != "" ==> children[k].dataId in table
    {
      table := map[];
      var j := 0;
      while j < |children|
        invariant 0 <= j <= |children|
        invariant forall key :: key in table ==> key != "" && table[key] in children[..j] && table[key].dataId == key
        invariant forall k :: 0 <= k < j && children[k].dataId != "" ==> children[k].dataId in table
      {
        var li := children[j];
        if li.dataId != "" {
          table := table[li.dataId := li];
        }
        j := j + 1;
      }
      assert children[..j] == children;
    }

    /**
     * table.forEach(li => li.remove()): when the table lists exactly the
     * children after position n, only the first n children remain.
     */
    method RemoveAll(table: map<string, TaskNode>, ghost n: nat)
      requires Distinct(children) && n <= |children| && TableOf(table, children[n..])
      modifies this
      ensures children == old(children[..n])
    {
      var left := table;
      while left != map[]
        invariant n <= |children| && children[..n] == old(children[..n])
        invariant Distinct(children)
        invariant TableOf(left, children[n..])
        decreases |left|
      {
        var key :| key in left;
        SweepStep(children, n, left, key);
        Detach(left[key]);
        left := left - {key};
      }
      TableOfEmpty(children[n..]);
      assert children == children[..n];
    }

    /**
     * The positioning half of render's callback: move node before the child
     * at index unless it is that child; with no child there, move it into the
     * fragment instead (appending detaches it from any parent).
     */
    method PlaceAt(node: TaskNode, index: nat, fragment: seq<TaskNode>) returns (fragment': seq<TaskNode>)
      modifies this
      ensures index < |old(children)| ==>
        && fragment' == fragment
        && children == if old(children)[index] == node then old(children)
                       else InsertedBefore(old(children), node, old(children)[index])
      ensures index >= |old(children)| ==> children == Without(old(children), node) && fragment' == fragment + [node]
    {
      if index < |children| {
        var currentChild := children[index];
        if currentChild != node {
          InsertBefore(node, currentChild);
        }
        fragment' := fragment;
      } else {
        Detach(node);
        fragment' := fragment + [node];
      }
    }

    /** listElement.appendChild(fragment): the fragment's children move to the end. */
    method AppendFragment(fragment: seq<TaskNode>)
      requires forall n :: n in fragment ==> n !in children
      modifies this
      ensures children == old(children) + fragment
    {
      children := children + fragment;
    }
  }

  // ===========================================================================
  // TaskManager
  // ===========================================================================

  class TaskManager {
    var tasks: seq<Task>
    const list: TaskList
    /** inputElement.value */
    var inputValue: string
    /** localStorage['zenFocusTasks'] */
    var storage: Slot

    /**
     * The list's children are distinct items with distinct, non-empty data-ids
     * whose delete labels match their texts: what the reconciler needs.
     */
    ghost predicate ViewWellFormed()
      reads this, list, list.children
    {
      && Distinct(list.children)
      && KeyedItems(list.children)
      && (forall k :: 0 <= k < |list.children| ==> LabelConsistent(list.children[k]))
    }

    /** The list shows the tasks, one item per task, in task order. */
    ghost predicate InSync()
      reads this, list, list.children
    {
      && |list.children| == |tasks|
      && forall k :: 0 <= k < |tasks| ==> Shows(list.children[k], tasks[k])
    }

    ghost predicate Valid()
      reads this, list, list.children
    {
      && UniqueIds(tasks)
      && ViewWellFormed()
      && InSync()
      && Load(storage) == Ok(tasks)
    }

    /** The constructor: load the stored tasks, then render them into the list. */
    constructor (list: TaskList, storage: Slot, inputValue: string)
      requires Load(storage).Ok? && UniqueIds(Load(storage).value)
      requires Distinct(list.children) && KeyedItems(list.children)
      requires forall k :: 0 <= k < |list.children| ==> LabelConsistent(list.children[k])
      modifies list, list.children
      ensures Valid()
      ensures this.list == list && tasks == Load(storage).value
      ensures this.storage == storage && this.inputValue == inputValue
    {
      this.tasks := Load(storage).value;
      this.list := list;
      this.inputValue := inputValue;
      this.storage := storage;
      new;
      Render();
    }

    /** saveTasks: persist the whole sequence, then render. */
    method SaveTasks()
      requires UniqueIds(tasks) && ViewWellFormed()
      modifies this`storage, list, list.children
      ensures Valid()
      ensures storage == Serialize(tasks)
      ensures forall c, k :: c in old(list.children) && 0 <= k < |tasks| && c.dataId == Key(tasks[k].id) ==>
                list.children[k] == c
      ensures forall k :: 0 <= k < |list.children| ==>
                list.children[k] in old(list.children)
                || (fresh(list.children[k]) && Key(tasks[k].id) !in DataIds(old(list.children)))
    {
      storage := Serialize(tasks);
      Render();
    }

    /**
     * addTask with the id Date.now() would give: a trimmed, non-blank input
     * becomes a new uncompleted task at the end, the input is cleared and the
     * list is saved and rendered; a blank input changes nothing.
     */
    method AddTask(id: int)
      requires Valid()
      requires !HasId(tasks, id)
      modifies this, list, list.children
      ensures Valid()
      ensures var text := Trim(old(inputValue));
        if text == [] then
          && tasks == old(tasks) && inputValue == old(inputValue) && storage == old(storage)
          && list.children == old(list.children)
        else
          && tasks == old(tasks) + [Task(id, text, false)]
          && inputValue == "" && storage == Serialize(tasks)
      ensures Trim(old(inputValue)) != [] ==> forall c, k :: c in old(list.children) && 0 <= k < |tasks| && c.dataId == Key(tasks[k].id) ==>
                list.children[k] == c
      ensures Trim(old(inputValue)) != [] ==> forall k :: 0 <= k < |list.children| ==>
                list.children[k] in old(list.children)
                || (fresh(list.children[k]) && Key(tasks[k].id) !in DataIds(old(list.children)))
    {
      var text := Trim(inputValue);
      if text != [] {
        tasks := tasks + [Task(id, text, false)];
        inputValue := "";
        SaveTasks();
      }
    }

    /** deleteTask: keep the tasks whose id differs, then save and render. */
    method DeleteTask(id: int)
      requires Valid()
      modifies this, list, list.children
      ensures Valid()
      ensures tasks == WithoutId(old(tasks), id)
      ensures storage == Serialize(tasks) && inputValue == old(inputValue)
      ensures forall c, k :: c in old(list.children) && 0 <= k < |tasks| && c.dataId == Key(tasks[k].id) ==>
                list.children[k] == c
      ensures forall k :: 0 <= k < |list.children| ==>
                list.children[k] in old(list.children)
                || (fresh(list.children[k]) && Key(tasks[k].id) !in DataIds(old(list.children)))
    {
      WithoutIdUnique(tasks, id);
      tasks := WithoutId(tasks, id);
      SaveTasks();
    }

    /** toggleTask: flip the found task's flag, then save and render; an unknown id does nothing. */
    method ToggleTask(id: int)
      requires Valid()
      modifies this, list, list.children
      ensures Valid()
      ensures tasks == Toggled(old(tasks), id) && inputValue == old(inputValue)
      ensures HasId(old(tasks), id) ==> storage == Serialize(tasks)
      ensures !HasId(old(tasks), id) ==> storage == old(storage) && list.children == old(list.children)
      ensures HasId(old(tasks), id) ==> forall c, k :: c in old(list.children) && 0 <= k < |tasks| && c.dataId == Key(tasks[k].id) ==>
                list.children[k] == c
      ensures HasId(old(tasks), id) ==> forall k :: 0 <= k < |list.children| ==>
                list.children[k] in old(list.children)
                || (fresh(list.children[k]) && Key(tasks[k].id) !in DataIds(old(list.children)))
    {
      match FirstIndex(tasks, id)
      case None =>
      case Some(k) =>
        ToggledEffect(tasks, id);
        tasks := Toggled(tasks, id);
        SaveTasks();
    }

    /** createTaskElement: a new item showing the task. */
    static method CreateTaskElement(task: Task) returns (li: TaskNode)
      ensures fresh(li) && Shows(li, task) && li.writes == []
    {
      li := new TaskNode(Key(task.id), task.completed, BoolString(task.completed), task.text, DeleteLabel(task.text));
    }

    /**
     * updateTaskElement: bring an item in line with the task, writing only the
     * attributes whose value differs; the delete label is rewritten only with
     * the text.
     */
    static method UpdateTaskElement(li: TaskNode, task: Task)
      modifies li
      ensures li.completed == task.completed && li.ariaChecked == BoolString(task.completed)
      ensures li.text == task.text
      ensures li.deleteLabel == if old(li.text) != task.text then DeleteLabel(task.text) else old(li.deleteLabel)
      ensures li.writes == old(li.writes) + NeededWrites(old(li.completed), old(li.ariaChecked), old(li.text), task)
    {
      if task.completed != li.completed {
        li.completed := task.completed;
        li.writes := li.writes + [CompletedClass];
      }
      if li.ariaChecked != BoolString(task.completed) {
        li.ariaChecked := BoolString(task.completed);
        li.writes := li.writes + [AriaChecked];
      }
      if li.text != task.text {
        li.text := task.text;
        li.deleteLabel := DeleteLabel(task.text);
        li.writes := li.writes + [SpanText, DeleteButtonLabel];
      }
    }

    /**
     * The first half of render's callback: the item filed under the task's
     * id is updated and taken out of the table, or a new item is created.
     */
    static method TakeItem(task: Task, existing: map<string, TaskNode>) returns (li: TaskNode, existing': map<string, TaskNode>)
      requires Key(task.id) in existing ==> existing[Key(task.id)].dataId == Key(task.id)
      requires forall key :: key in existing ==> LabelConsistent(existing[key])
      modifies if Key(task.id) in existing then {existing[Key(task.id)]} else {}
      ensures Shows(li, task)
      ensures forall key :: key in existing' ==> LabelConsistent(existing'[key])
      ensures existing' == existing - {Key(task.id)}
      ensures Key(task.id) in existing ==> li == existing[Key(task.id)]
      ensures Key(task.id) !in existing ==> fresh(li)
    {
      var taskId := Key(task.id);
      if taskId in existing {
        li := existing[taskId];
        UpdateTaskElement(li, task);
        existing' := existing - {taskId};
      } else {
        li := CreateTaskElement(task);
        existing' := existing;
        RemoveAbsent(existing, taskId);
      }
    }

    /**
     * One call of render's forEach callback, for tasks[i]: take the item for
     * the task, then put it at position i. 'all' is the list followed by the
     * pending fragment; 'made' collects the items render has created.
     */
    static method PlaceTask(list: TaskList, ts: seq<Task>, i: nat, existing: map<string, TaskNode>, fragment: seq<TaskNode>,
                            ghost t0: map<string, TaskNode>, ghost all: seq<TaskNode>, ghost made: set<TaskNode>)
      returns (existing': map<string, TaskNode>, fragment': seq<TaskNode>, ghost all': seq<TaskNode>, ghost made': set<TaskNode>)
      requires UniqueIds(ts) && i < |ts|
      requires all == list.children + fragment
      requires Arranged(i, existing, all, t0, ts)
      requires fragment != [] ==> |all| == i
      requires forall k :: 0 <= k < i ==> Shows(all[k], ts[k])
      requires forall key :: key in existing ==> LabelConsistent(existing[key])
      requires forall k :: 0 <= k < i ==> Key(ts[k].id) in t0 || all[k] in made
      modifies list, t0.Values
      ensures all' == list.children + fragment'
      ensures Arranged(i + 1, existing', all', t0, ts)
      ensures fragment' != [] ==> |all'| == i + 1
      ensures forall k :: 0 <= k < i + 1 ==> Shows(all'[k], ts[k])
      ensures forall key :: key in existing' ==> LabelConsistent(existing'[key])
      ensures forall k :: 0 <= k < i + 1 ==> Key(ts[k].id) in t0 || all'[k] in made'
      ensures made <= made'
      ensures forall n :: n in made' && n !in made ==> fresh(n)
    {
      var task := ts[i];
      ArrangedLookup(i, existing, all, t0, ts);
      var li;
      li, existing' := TakeItem(task, existing);
      assert Key(task.id) !in t0 ==> fresh(li);
      assert forall k :: 0 <= k < i ==> Shows(all[k], ts[k]);
      fragment', all', made' := PutItem(list, ts, i, li, existing, fragment, t0, all, made);
    }

    /**
     * The second half of render's callback: with a child at position i, li
     * goes before it unless it is that child; without one, li goes into the
     * fragment.
     */
    static method PutItem(list: TaskList, ts: seq<Task>, i: nat, li: TaskNode, ghost existing: map<string, TaskNode>,
                          fragment: seq<TaskNode>, ghost t0: map<string, TaskNode>, ghost all: seq<TaskNode>,
                          ghost made: set<TaskNode>)
      returns (fragment': seq<TaskNode>, ghost all': seq<TaskNode>, ghost made': set<TaskNode>)
      requires UniqueIds(ts) && i < |ts|
      requires all == list.children + fragment
      requires Arranged(i, existing, all, t0, ts)
      requires fragment != [] ==> |all| == i
      requires forall k :: 0 <= k < i ==> Shows(all[k], ts[k])
      requires Shows(li, ts[i])
      requires Key(ts[i].id) in existing ==> li == existing[Key(ts[i].id)]
      requires Key(ts[i].id) !in existing ==> li !in all
      requires forall k :: 0 <= k < i ==> Key(ts[k].id) in t0 || all[k] in made
      modifies list
      ensures all' == list.children + fragment'
      ensures Arranged(i + 1, existing - {Key(ts[i].id)}, all', t0, ts)
      ensures fragment' != [] ==> |all'| == i + 1
      ensures forall k :: 0 <= k < i + 1 ==> Shows(all'[k], ts[k])
      ensures forall k :: 0 <= k < i + 1 ==> Key(ts[k].id) in t0 || all'[k] in made'
      ensures made <= made'
      ensures forall n :: n in made' && n !in made ==> n == li && Key(ts[i].id) !in t0
    {
      all' := PlaceStep(i, existing, list.children, fragment, t0, ts, li);
      ShowsExtended(all, all', ts, i);
      made' := MadeStep(i, all, all', ts, t0, made, li);
      fragment' := list.PlaceAt(li, i, fragment);
    }

    /**
     * render's forEach over the tasks: step i puts the item for tasks[i] at
     * position i of the list, or into the fragment when the list has no
     * child there. Afterwards the list followed by the fragment starts with
     * one item per task, in order, and the table holds exactly the old items
     * whose ids matched no task.
     */
    static method PlaceAll(list: TaskList, ts: seq<Task>, existing: map<string, TaskNode>, ghost t0: map<string, TaskNode>)
      returns (existing': map<string, TaskNode>, fragment: seq<TaskNode>, ghost all: seq<TaskNode>, ghost made: set<TaskNode>)
      requires UniqueIds(ts)
      requires Arranged(0, existing, list.children, t0, ts)
      requires forall key :: key in existing ==> LabelConsistent(existing[key])
      modifies list, t0.Values
      ensures all == list.children + fragment
      ensures Arranged(|ts|, existing', all, t0, ts)
      ensures fragment != [] ==> |all| == |ts|
      ensures forall k :: 0 <= k < |ts| ==> Shows(all[k], ts[k])
      ensures fresh(made)
      ensures forall k :: 0 <= k < |ts| ==> Key(ts[k].id) in t0 || all[k] in made
    {
      existing' := existing;
      fragment := [];
      all := list.children;
      made := {};
      assert all == list.children + fragment;
      var i := 0;
      while i < |ts|
        invariant 0 <= i <= |ts|
        invariant all == list.children + fragment
        invariant Arranged(i, existing', all, t0, ts)
        invariant fragment != [] ==> |all| == i
        invariant forall k :: 0 <= k < i ==> Shows(all[k], ts[k])
        invariant forall key :: key in existing' ==> LabelConsistent(existing'[key])
        invariant fresh(made)
        invariant forall k :: 0 <= k < i ==> Key(ts[k].id) in t0 || all[k] in made
      {
        existing', fragment, all, made := PlaceTask(list, ts, i, existing', fragment, t0, all, made);
        i := i + 1;
      }
    }

    /**
     * render: reconcile the list with the tasks. Afterwards the list shows the
     * tasks in order; an old item whose id is still present sits at its
     * task's position; every other item is new and carries an id no old item
     * had.
     */
    method Render()
      requires UniqueIds(tasks) && ViewWellFormed()
      modifies list, list.children
      ensures ViewWellFormed() && InSync()
      ensures forall c, k :: c in old(list.children) && 0 <= k < |tasks| && c.dataId == Key(tasks[k].id) ==>
                list.children[k] == c
      ensures forall k :: 0 <= k < |list.children| ==>
                list.children[k] in old(list.children)
                || (fresh(list.children[k]) && Key(tasks[k].id) !in DataIds(old(list.children)))
    {
      if |tasks| == 0 {
        list.Clear();
        return;
      }

      var existing := list.IdTable();
      ghost var before := list.children;
      ghost var t0 := existing;
      IdTableOf(existing, before);
      ArrangedStart(t0, before, tasks);
      var fragment;
      ghost var all;
      ghost var made;
      existing, fragment, all, made := PlaceAll(list, tasks, existing, t0);

      RenderOutcome(existing, all, t0, tasks, before, made);
      Sweep(list, |tasks|, fragment, existing, all);
      assert forall k :: 0 <= k < |tasks| ==> list.children[k] == all[k];
    }

    /**
     * The end of render: the fragment is appended, then the items left in the
     * table are removed, which leaves exactly the first n placed items.
     */
    static method Sweep(list: TaskList, n: nat, fragment: seq<TaskNode>, existing: map<string, TaskNode>,
                        ghost all: seq<TaskNode>)
      requires all == list.children + fragment && Distinct(all) && n <= |all|
      requires TableOf(existing, all[n..])
      requires fragment != [] ==> |all| == n
      modifies list
      ensures list.children == all[..n]
    {
      DistinctSplit(all, |list.children|);
      assert all[|list.children|..] == fragment;
      list.AppendFragment(fragment);
      list.RemoveAll(existing, n);
    }
  }
}
