/**
 * The persisted task set: `load_tasks`, `save_tasks`, the naming and
 * duplicate rule of `add_task`, and the dictionary operations `add_task` and
 * `remove_task` apply to it. A Python dict (and the JSON object it is saved as)
 * keeps its keys in insertion order, so the store is a sequence of entries:
 * assigning to an existing key keeps its position, a new key goes to the end,
 * and `del` closes the gap.
 */
module TaskStore {
  import opened Wrappers

  /** The `--unit` choices. */
  datatype Unit = Seconds | Minutes | Hours | Days

  /** The value `add_task` stores under a task name. */
  datatype TaskDetails = TaskDetails(
    interval: int,
    unit: Unit,
    emailList: string,
    messageFile: string,
    subject: string,
    attachments: seq<string>)

  datatype Entry = Entry(name: string, details: TaskDetails)

  /** A dict from task name to details, in insertion order. */
  type Store = seq<Entry>

  function Names(s: Store): set<string>
  {
    set e | e in s :: e.name
  }

  /** Dictionary keys are distinct. */
  predicate UniqueNames(s: Store)
  {
    forall i, j :: 0 <= i < j < |s| ==> s[i].name != s[j].name
  }

  /** Position of the entry for `k`, or `|s|` when there is none. */
  function IndexOf(s: Store, k: string): (i: nat)
    ensures i <= |s|
    ensures i < |s| ==> s[i].name == k
    ensures forall m :: 0 <= m < i ==> s[m].name != k
  {
    if s == [] then 0
    else if s[0].name == k then 0
    else 1 + IndexOf(s[1..], k)
  }

  /** A key has a position exactly when it is among the store's names. */
  lemma IndexOfInNames(s: Store, k: string)
    ensures IndexOf(s, k) < |s| <==> k in Names(s)
  {
    var i := IndexOf(s, k);
    if i < |s| {
      assert s[i] in s;
    }
    if k in Names(s) {
      var e :| e in s && e.name == k;
      var m :| 0 <= m < |s| && s[m] == e;
    }
  }

  /** `tasks[k]` when `k in tasks`, else nothing. */
  function Lookup(s: Store, k: string): Option<TaskDetails>
  {
    var i := IndexOf(s, k);
    if i < |s| then Some(s[i].details) else None
  }

  /** A lookup finds something exactly when `k in tasks`, and what it finds is stored under `k`. */
  lemma LookupInNames(s: Store, k: string)
    ensures Lookup(s, k).Some? <==> k in Names(s)
    ensures Lookup(s, k).Some? ==> Entry(k, Lookup(s, k).value) in s
  {
    IndexOfInNames(s, k);
  }

  /** `tasks[k] = v`: an existing key is overwritten in place, a new key is appended. */
  function Put(s: Store, k: string, v: TaskDetails): Store
  {
    if s == [] then [Entry(k, v)]
    else if s[0].name == k then [Entry(k, v)] + s[1..]
    else [s[0]] + Put(s[1..], k, v)
  }

  /** Where `tasks[k] = v` puts the entry: at the key's position if present, at the end otherwise. */
  lemma {:induction false} PutShape(s: Store, k: string, v: TaskDetails)
    ensures IndexOf(s, k) < |s| ==> Put(s, k, v) == s[IndexOf(s, k) := Entry(k, v)]
    ensures IndexOf(s, k) == |s| ==> Put(s, k, v) == s + [Entry(k, v)]
  {
    if s != [] && s[0].name != k {
      PutShape(s[1..], k, v);
      var i := IndexOf(s[1..], k);
      assert IndexOf(s, k) == i + 1;
      if i < |s[1..]| {
        assert [s[0]] + s[1..][i := Entry(k, v)] == s[i + 1 := Entry(k, v)];
      } else {
        assert [s[0]] + (s[1..] + [Entry(k, v)]) == s + [Entry(k, v)];
      }
    }
  }

  /** `IndexOf` is determined by the first position holding the key. */
  lemma IndexOfIs(s: Store, k: string, i: nat)
    requires i <= |s|
    requires i < |s| ==> s[i].name == k
    requires forall m :: 0 <= m < i ==> s[m].name != k
    ensures IndexOf(s, k) == i
  {
  }

  /** Position by position: `tasks[k] = v` replaces the entry at the key's position, or adds one at the end. */
  lemma PutAt(s: Store, k: string, v: TaskDetails)
    ensures IndexOf(s, k) < |s| ==> |Put(s, k, v)| == |s|
    ensures IndexOf(s, k) == |s| ==> |Put(s, k, v)| == |s| + 1
    ensures Put(s, k, v)[IndexOf(s, k)] == Entry(k, v)
    ensures forall m :: 0 <= m < |s| && m != IndexOf(s, k) ==> Put(s, k, v)[m] == s[m]
  {
    PutShape(s, k, v);
  }

  /** After `tasks[k] = v`, the key `j` other than `k` maps to what it mapped to before. */
  lemma PutLookupOther(s: Store, k: string, v: TaskDetails, j: string)
    requires j != k
    ensures Lookup(Put(s, k, v), j) == Lookup(s, j)
  {
    PutAt(s, k, v);
    var i, r, a := IndexOf(s, k), Put(s, k, v), IndexOf(s, j);
    if a < |s| {
      assert a != i;
      IndexOfIs(r, j, a);
    } else {
      IndexOfIs(r, j, |r|);
    }
  }

  /** After `tasks[k] = v`, `k` maps to `v` and every other key to what it mapped to before. */
  lemma PutLookup(s: Store, k: string, v: TaskDetails)
    ensures Lookup(Put(s, k, v), k) == Some(v)
    ensures forall j :: j != k ==> Lookup(Put(s, k, v), j) == Lookup(s, j)
  {
    PutShape(s, k, v);
    var i, r := IndexOf(s, k), Put(s, k, v);
    assert forall m :: 0 <= m < i ==> r[m] == s[m];
    IndexOfIs(r, k, i);
    forall j | j != k
      ensures Lookup(r, j) == Lookup(s, j)
    {
      PutLookupOther(s, k, v, j);
    }
  }

  /** After `tasks[k] = v` the key set is the old one plus `k`. */
  lemma PutNames(s: Store, k: string, v: TaskDetails)
    ensures Names(Put(s, k, v)) == Names(s) + {k}
  {
    PutShape(s, k, v);
    var i, r := IndexOf(s, k), Put(s, k, v);
    forall e | e in r
      ensures e.name in Names(s) + {k}
    {
      var m :| 0 <= m < |r| && r[m] == e;
      if m < |s| && m != i {
        assert s[m] in s;
      }
    }
    forall e | e in s
      ensures e.name in Names(r)
    {
      var m :| 0 <= m < |s| && s[m] == e;
      assert r[m] in r;
      assert r[m].name == e.name;
    }
    if i < |s| {
      assert r[i] == Entry(k, v);
    } else {
      assert r[|s|] == Entry(k, v);
    }
  }

  /** With distinct keys, `tasks[k] = v` keeps the keys distinct. */
  lemma PutKeepsNamesUnique(s: Store, k: string, v: TaskDetails)
    requires UniqueNames(s)
    ensures UniqueNames(Put(s, k, v))
  {
    PutShape(s, k, v);
    var i, r := IndexOf(s, k), Put(s, k, v);
    assert forall m :: 0 <= m < |s| ==> r[m].name == s[m].name;
  }

  /** `del tasks[k]`: the entry for `k` goes, the others keep their order. */
  function Delete(s: Store, k: string): Store
  {
    if s == [] then []
    else if s[0].name == k then s[1..]
    else [s[0]] + Delete(s[1..], k)
  }

  /** Deleting an absent key changes nothing; deleting a present one removes exactly its entry. */
  lemma {:induction false} DeleteShape(s: Store, k: string)
    ensures IndexOf(s, k) == |s| ==> Delete(s, k) == s
    ensures IndexOf(s, k) < |s| ==> Delete(s, k) == s[..IndexOf(s, k)] + s[IndexOf(s, k) + 1..]
  {
    if s != [] && s[0].name != k {
      DeleteShape(s[1..], k);
      var i := IndexOf(s[1..], k);
      if i < |s[1..]| {
        CutAfterFirst(s, i);
      }
    }
  }

  /** Cutting position `i` out of the tail is cutting position `i + 1` out of the whole. */
  lemma CutAfterFirst(s: Store, i: nat)
    requires i + 1 < |s|
    ensures [s[0]] + (s[1..][..i] + s[1..][i + 1..]) == s[..i + 1] + s[i + 2..]
  {
    assert [s[0]] + s[1..][..i] == s[..i + 1];
    assert s[1..][i + 1..] == s[i + 2..];
  }

  /** Position by position: the entries before the deleted one stay put, those after it move up by one. */
  lemma DeleteAt(s: Store, k: string)
    requires IndexOf(s, k) < |s|
    ensures |Delete(s, k)| == |s| - 1
    ensures forall m :: 0 <= m < IndexOf(s, k) ==> Delete(s, k)[m] == s[m]
    ensures forall m :: IndexOf(s, k) <= m < |s| - 1 ==> Delete(s, k)[m] == s[m + 1]
  {
    DeleteShape(s, k);
  }

  /** After `del tasks[k]`, a key `j` other than `k` maps to what it mapped to before. */
  lemma DeleteLookupOther(s: Store, k: string, j: string)
    requires j != k
    ensures Lookup(Delete(s, k), j) == Lookup(s, j)
  {
    var i, r, a := IndexOf(s, k), Delete(s, k), IndexOf(s, j);
    if i < |s| {
      DeleteAt(s, k);
      if a < i {
        IndexOfIs(r, j, a);
      } else {
        assert i < a;
        forall m | 0 <= m < a - 1
          ensures r[m].name != j
        {
          if m >= i {
            assert r[m] == s[m + 1];
          }
        }
        if a < |s| {
          assert r[a - 1] == s[a];
        }
        IndexOfIs(r, j, a - 1);
      }
    } else {
      DeleteShape(s, k);
    }
  }

  /** With distinct keys, `del tasks[k]` removes `k` and leaves every other key's details as they were. */
  lemma DeleteLookup(s: Store, k: string)
    requires UniqueNames(s)
    ensures Lookup(Delete(s, k), k) == None
    ensures forall j :: j != k ==> Lookup(Delete(s, k), j) == Lookup(s, j)
  {
    var i, r := IndexOf(s, k), Delete(s, k);
    if i < |s| {
      DeleteAt(s, k);
      forall m | 0 <= m < |r|
        ensures r[m].name != k
      {
        if m >= i {
          assert r[m] == s[m + 1];
        }
      }
    } else {
      DeleteShape(s, k);
    }
    IndexOfIs(r, k, |r|);
    forall j | j != k
      ensures Lookup(r, j) == Lookup(s, j)
    {
      DeleteLookupOther(s, k, j);
    }
  }

  /** `del tasks[k]` keeps distinct keys distinct. */
  lemma DeleteKeepsNamesUnique(s: Store, k: string)
    requires UniqueNames(s)
    ensures UniqueNames(Delete(s, k))
  {
    var i, r := IndexOf(s, k), Delete(s, k);
    if i < |s| {
      DeleteAt(s, k);
      forall m, n | 0 <= m < n < |r|
        ensures r[m].name != r[n].name
      {
        var m', n' := if m < i then m else m + 1, if n < i then n else n + 1;
        assert r[m] == s[m'] && r[n] == s[n'] && m' < n';
      }
    } else {
      DeleteShape(s, k);
    }
  }

  /** With distinct keys, `del tasks[k]` leaves exactly the other keys. */
  lemma DeleteNames(s: Store, k: string)
    requires UniqueNames(s)
    ensures Names(Delete(s, k)) == Names(s) - {k}
  {
    DeleteLookup(s, k);
    var r := Delete(s, k);
    forall j
      ensures j in Names(r) <==> j in Names(s) && j != k
    {
      LookupInNames(r, j);
      LookupInNames(s, j);
    }
  }

  // ---------------------------------------------------------------------------
  // The task file: `load_tasks` and `save_tasks`.
  // ---------------------------------------------------------------------------

  /** What `email_tasks.json` holds: nothing, text that is not JSON, JSON that is not an object, or an object. */
  datatype TaskFile = Missing | Malformed | NotAnObject | Object(tasks: Store)

  /** `load_tasks`: fails soft, returning an empty store unless the file holds an object. */
  function LoadTasks(f: TaskFile): (s: Store)
  {
    if f.Object? then f.tasks else []
  }

  /** `save_tasks`: the whole store is written back; loading it again gives it back. */
  function SaveTasks(s: Store): (f: TaskFile)
    ensures f.Object?
    ensures LoadTasks(f) == s
  {
    Object(s)
  }

  /** A missing, malformed or non-object file loads as the empty store. */
  lemma LoadTasksFailsSoft(f: TaskFile)
    requires !f.Object?
    ensures LoadTasks(f) == []
  {
  }

  // ---------------------------------------------------------------------------
  // Task names: f"task_{len(tasks) + 1}".
  // ---------------------------------------------------------------------------

  function Digit(d: nat): char
    requires d < 10
  {
    ('0' as int + d) as char
  }

  /** `str(n)` for a natural number: its decimal digits, most significant first. */
  function Decimal(n: nat): (r: string)
    ensures 1 <= |r|
    ensures n >= 10 ==> 2 <= |r|
  {
    if n < 10 then [Digit(n)] else Decimal(n / 10) + [Digit(n % 10)]
  }

  /** Distinct numbers print differently. */
  lemma {:induction false} DecimalInjective(a: nat, b: nat)
    requires Decimal(a) == Decimal(b)
    ensures a == b
    decreases a
  {
    if a >= 10 && b >= 10 {
      var da, db := Decimal(a), Decimal(b);
      assert da[|da| - 1] == Digit(a % 10) && db[|db| - 1] == Digit(b % 10);
      assert Decimal(a / 10) == da[..|da| - 1] == db[..|db| - 1] == Decimal(b / 10);
      DecimalInjective(a / 10, b / 10);
    }
  }

  function TaskName(n: nat): string
  {
    "task_" + Decimal(n)
  }

  lemma TaskNameInjective(a: nat, b: nat)
    requires TaskName(a) == TaskName(b)
    ensures a == b
  {
    assert Decimal(a) == TaskName(a)[5..] == TaskName(b)[5..] == Decimal(b);
    DecimalInjective(a, b);
  }

  // ---------------------------------------------------------------------------
  // add_task on the loaded store.
  // ---------------------------------------------------------------------------

  /** Some stored task has exactly these details. */
  predicate HasDetails(s: Store, d: TaskDetails)
  {
    exists i :: 0 <= i < |s| && s[i].details == d
  }

  /** The outcome of `add_task`: rejected as a duplicate, or the name and the store it saves. */
  datatype AddResult = Duplicate | Added(name: string, tasks: Store)

  /**
   * `add_task` on the store `s` it loaded: a duplicate of any stored details is
   * rejected; otherwise the details go under `task_<|s|+1>`, overwriting
   * whatever entry already has that name.
   */
  function Add(s: Store, d: TaskDetails): (r: AddResult)
    ensures r.Duplicate? <==> HasDetails(s, d)
    ensures r.Added? ==>
      && r.name == TaskName(|s| + 1)
      && Lookup(r.tasks, r.name) == Some(d)
      && (forall k :: k != r.name ==> Lookup(r.tasks, k) == Lookup(s, k))
      && |r.tasks| == (if r.name in Names(s) then |s| else |s| + 1)
      && Names(r.tasks) == Names(s) + {r.name}
  {
    if HasDetails(s, d) then Duplicate
    else
      var name := TaskName(|s| + 1);
      PutLookup(s, name, d);
      PutNames(s, name, d);
      PutShape(s, name, d);
      assert |Put(s, name, d)| == (if name in Names(s) then |s| else |s| + 1);
      Added(name, Put(s, name, d))
  }

  /** The duplicate scan of `add_task`: a loop over `tasks.values()`. */
  method FindDuplicate(s: Store, d: TaskDetails) returns (found: bool)
    ensures found <==> HasDetails(s, d)
  {
    var i := 0;
    while i < |s|
      invariant 0 <= i <= |s|
      invariant forall j :: 0 <= j < i ==> s[j].details != d
    {
      if s[i].details == d {
        return true;
      }
      i := i + 1;
    }
    return false;
  }

  /** The names a store gets when tasks are only ever added: `task_1`, `task_2`, ... in order. */
  predicate SequentialNames(s: Store)
  {
    forall i :: 0 <= i < |s| ==> s[i].name == TaskName(i + 1)
  }

  /** With sequential names, the name `task_<|s|+1>` is not in the store yet. */
  lemma NextNameFresh(s: Store)
    requires SequentialNames(s)
    ensures IndexOf(s, TaskName(|s| + 1)) == |s|
  {
    var name := TaskName(|s| + 1);
    forall m | 0 <= m < |s|
      ensures s[m].name != name
    {
      if s[m].name == name {
        TaskNameInjective(m + 1, |s| + 1);
      }
    }
    IndexOfIs(s, name, |s|);
  }

  /** As long as nothing is removed, every new name is fresh and the store grows at its end. */
  lemma AddToSequentialAppends(s: Store, d: TaskDetails)
    requires SequentialNames(s)
    requires !HasDetails(s, d)
    ensures Add(s, d) == Added(TaskName(|s| + 1), s + [Entry(TaskName(|s| + 1), d)])
    ensures SequentialNames(Add(s, d).tasks)
  {
    NextNameFresh(s);
    PutShape(s, TaskName(|s| + 1), d);
  }

  /**
   * After a removal the generated name can already be taken: with `task_1` and
   * `task_2` stored, removing `task_1` and adding new details names them
   * `task_2` again, and the details stored under `task_2` are silently lost.
   */
  lemma RemoveThenAddOverwrites(a: TaskDetails, b: TaskDetails, c: TaskDetails)
    requires c != b
    ensures Delete([Entry(TaskName(1), a), Entry(TaskName(2), b)], TaskName(1)) == [Entry(TaskName(2), b)]
    ensures Add([Entry(TaskName(2), b)], c) == Added(TaskName(2), [Entry(TaskName(2), c)])
  {
    assert TaskName(1) != TaskName(2) by {
      assert TaskName(1)[5] == '1';
      assert TaskName(2)[5] == '2';
    }
    assert !HasDetails([Entry(TaskName(2), b)], c);
    assert TaskName(|[Entry(TaskName(2), b)]| + 1) == TaskName(2);
  }
}
