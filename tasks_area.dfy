/**
 * The task area's header: which category is shown and its
 * "completed/total" counter, both read off the store's state.
 */
module TasksAreaView {
  import opened Wrappers
  import opened Seqs
  import opened TaskModel

  /** `categories.find(c => c.id === activeCategory)`; no category has the id null. */
  function FindActive(cats: seq<Category>, active: Option<string>): (r: Option<Category>)
    ensures r.None? <==> active.None? || forall i :: 0 <= i < |cats| ==> cats[i].id != active.value
    ensures r.Some? ==> active.Some? && r.value in cats && r.value.id == active.value
  {
    if active.None? || cats == [] then None
    else if cats[0].id == active.value then Some(cats[0])
    else
      assert forall i :: 0 < i < |cats| ==> cats[i] == cats[1..][i - 1];
      FindActive(cats[1..], active)
  }

  /** `find` returns the first match, so with several categories of one id the earliest is shown. */
  lemma {:induction false} FindActiveIsFirst(cats: seq<Category>, active: Option<string>)
    requires FindActive(cats, active).Some?
    ensures exists k :: 0 <= k < |cats| && cats[k] == FindActive(cats, active).value
                        && forall j :: 0 <= j < k ==> cats[j].id != active.value
  {
    if cats[0].id != active.value {
      FindActiveIsFirst(cats[1..], active);
      var k :| 0 <= k < |cats[1..]| && cats[1..][k] == FindActive(cats[1..], active).value
               && forall j :: 0 <= j < k ==> cats[1..][j].id != active.value;
      assert cats[k + 1] == cats[1..][k];
      forall j | 0 <= j < k + 1 ensures cats[j].id != active.value {
        if j > 0 { assert cats[j] == cats[1..][j - 1]; }
      }
    } else {
      assert cats[0] == FindActive(cats, active).value;
    }
  }

  /**
   * `activeCategories?.tasks.length || 0`: 0 when no category is shown,
   * otherwise the number of tasks of the first category with the active id.
   */
  function TotalTasks(cats: seq<Category>, active: Option<string>): (n: nat)
    ensures (active.None? || forall i :: 0 <= i < |cats| ==> cats[i].id != active.value) ==> n == 0
    ensures n > 0 ==> active.Some? && exists k :: 0 <= k < |cats| && cats[k].id == active.value && |cats[k].tasks| == n
    ensures FindActive(cats, active).Some? ==> n == |FindActive(cats, active).value.tasks|
  {
    match FindActive(cats, active)
    case None => 0
    case Some(c) =>
      assert exists k :: 0 <= k < |cats| && cats[k] == c;
      |c.tasks|
  }

  /**
   * `activeCategories?.tasks.filter(t => t.completed).length || 0`: 0 when
   * no category is shown, otherwise the number of completed tasks of the
   * first category with the active id, never more than the total.
   */
  function CompletedTasks(cats: seq<Category>, active: Option<string>): (n: nat)
    ensures (active.None? || forall i :: 0 <= i < |cats| ==> cats[i].id != active.value) ==> n == 0
    ensures n <= TotalTasks(cats, active)
    ensures FindActive(cats, active).Some? ==> n == |CompletedOnly(FindActive(cats, active).value.tasks)|
  {
    match FindActive(cats, active)
    case None => 0
    case Some(c) => |CompletedOnly(c.tasks)|
  }

  /**
   * The counter shows completed equal to total exactly when every task of
   * the shown category is completed.
   */
  lemma CounterBounds(cats: seq<Category>, active: Option<string>)
    ensures CompletedTasks(cats, active) == TotalTasks(cats, active) <==>
      match FindActive(cats, active)
      case None => true
      case Some(c) => forall i :: 0 <= i < |c.tasks| ==> c.tasks[i].completed
  {
  }

  /**
   * With distinct category ids, a toggle in the shown category raises the
   * celebration exactly when the counter then reads n/n with n > 0.
   */
  lemma CounterAgreesWithSignal(cats: seq<Category>, cid: string, tid: string)
    requires CategoryIdsDistinct(cats)
    requires exists k :: 0 <= k < |cats| && cats[k].id == cid
    ensures var after := ToggleIn(cats, cid, tid);
      ToggleSignal(cats, cid, tid) <==>
        TotalTasks(after, Some(cid)) > 0 && CompletedTasks(after, Some(cid)) == TotalTasks(after, Some(cid))
  {
    var k :| 0 <= k < |cats| && cats[k].id == cid;
    var after := ToggleIn(cats, cid, tid);
    ToggleSignalIsTargetState(cats, cid, tid, k);
    ShownIsToggled(cats, cid, tid, k);
    AllCompletedIsFullCounter(after[k].tasks);
  }

  /** With distinct ids, the category the area shows after a toggle is the toggled one. */
  lemma ShownIsToggled(cats: seq<Category>, cid: string, tid: string, k: nat)
    requires CategoryIdsDistinct(cats)
    requires k < |cats| && cats[k].id == cid
    ensures var after := ToggleIn(cats, cid, tid);
      FindActive(after, Some(cid)) == Some(after[k])
  {
    var after := ToggleIn(cats, cid, tid);
    CategoryIdsDistinctAt(cats);
    assert after[k].id == cid;
    FindActiveIsFirst(after, Some(cid));
    var m :| 0 <= m < |after| && after[m] == FindActive(after, Some(cid)).value
             && forall j :: 0 <= j < m ==> after[j].id != cid;
    assert m == k;
  }
}
