/** Navigation through a course: which lesson the overview offers to
    continue with, what `complete_lesson` answers, the order numbers given
    to new modules and lessons, and the file names shown for notebooks. */
module Navigation {
  import opened Wrappers
  import opened Text

  /** A lesson as navigation sees it: its id and its order in the module. */
  datatype Lesson = Lesson(id: nat, order: nat)

  /** A module with its lessons, listed as the model's ordering (by `order`)
      lists them. */
  datatype CourseModule = CourseModule(id: nat, order: nat, lessons: seq<Lesson>)

  // ---------------------------------------------------------------------
  // course_overview: the lesson to continue with

  /** The lessons of the course in the order the overview walks them. */
  function Flatten(mods: seq<CourseModule>): (r: seq<Lesson>)
    ensures mods == [] ==> r == []
  {
    if mods == [] then [] else mods[0].lessons + Flatten(mods[1..])
  }

  /** The inner loop: the first lesson without a completed progress record;
      `done` holds the ids of completed lessons. */
  function FirstNotDone(ls: seq<Lesson>, done: set<nat>): (r: Option<Lesson>)
    ensures r.None? <==> forall l :: l in ls ==> l.id in done
    ensures r.Some? ==> FirstAt(ls, done, r.value)
  {
    if ls == [] then None
    else if ls[0].id !in done then Some(ls[0])
    else
      var rest := FirstNotDone(ls[1..], done);
      assert forall l :: l in ls <==> l == ls[0] || l in ls[1..];
      if rest.Some? then
        var i :| 0 <= i < |ls[1..]| && ls[1..][i] == rest.value && FirstBefore(ls[1..], done, i);
        assert ls[i + 1] == rest.value && FirstBefore(ls, done, i + 1);
        rest
      else rest
  }

  /** `l` is unfinished and every lesson before some occurrence of it is
      finished. */
  ghost predicate FirstAt(ls: seq<Lesson>, done: set<nat>, l: Lesson)
  {
    l.id !in done && exists i :: 0 <= i < |ls| && ls[i] == l && FirstBefore(ls, done, i)
  }

  predicate FirstBefore(ls: seq<Lesson>, done: set<nat>, i: nat)
    requires i <= |ls|
  {
    forall j :: 0 <= j < i ==> ls[j].id in done
  }

  /** The nested loop as written: module by module, stopping at the first
      module that holds an unfinished lesson. */
  function ScanModules(mods: seq<CourseModule>, done: set<nat>): Option<Lesson>
  {
    if mods == [] then None
    else
      match FirstNotDone(mods[0].lessons, done)
      case Some(l) => Some(l)
      case None => ScanModules(mods[1..], done)
  }

  /** Scanning module by module finds what a single scan over all lessons
      finds. */
  lemma {:induction false} ScanIsFlatScan(mods: seq<CourseModule>, done: set<nat>)
    ensures ScanModules(mods, done) == FirstNotDone(Flatten(mods), done)
  {
    if mods != [] {
      ScanIsFlatScan(mods[1..], done);
      FirstNotDoneAppend(mods[0].lessons, Flatten(mods[1..]), done);
    }
  }

  lemma {:induction false} FirstNotDoneAppend(a: seq<Lesson>, b: seq<Lesson>, done: set<nat>)
    ensures FirstNotDone(a + b, done)
      == (if FirstNotDone(a, done).Some? then FirstNotDone(a, done) else FirstNotDone(b, done))
  {
    if a != [] {
      assert (a + b)[1..] == a[1..] + b;
      FirstNotDoneAppend(a[1..], b, done);
    } else {
      assert a + b == b;
    }
  }

  function LastLesson(m: CourseModule): Option<Lesson>
  {
    if m.lessons == [] then None else Some(m.lessons[|m.lessons| - 1])
  }

  /** The overview's "continue" lesson: the first unfinished lesson; when
      every lesson is finished, the last lesson of the last module (none if
      that module is empty); none for a course without modules. */
  function ContinueLesson(mods: seq<CourseModule>, done: set<nat>): (r: Option<Lesson>)
    ensures r.Some? ==> r.value in Flatten(mods)
  {
    var found := ScanModules(mods, done);
    ScanIsFlatScan(mods, done);
    if found.Some? then found
    else if mods == [] then None
    else
      var last := mods[|mods| - 1];
      LastInFlatten(mods);
      LastLesson(last)
  }

  lemma {:induction false} LastInFlatten(mods: seq<CourseModule>)
    requires mods != []
    ensures forall l :: l in mods[|mods| - 1].lessons ==> l in Flatten(mods)
  {
    if |mods| > 1 {
      LastInFlatten(mods[1..]);
      assert mods[1..][|mods[1..]| - 1] == mods[|mods| - 1];
    }
  }

  /** What the overview offers: an unfinished lesson with everything before
      it finished whenever one exists; otherwise the last module's last
      lesson. */
  lemma ContinueLessonChoice(mods: seq<CourseModule>, done: set<nat>)
    ensures var r := ContinueLesson(mods, done);
      && ((exists l :: l in Flatten(mods) && l.id !in done) ==>
            r.Some? && FirstAt(Flatten(mods), done, r.value))
      && ((forall l :: l in Flatten(mods) ==> l.id in done) ==>
            r == (if mods == [] then None else LastLesson(mods[|mods| - 1])))
  {
    ScanIsFlatScan(mods, done);
  }

  // ---------------------------------------------------------------------
  // complete_lesson

  /** The first element of least key: `order_by(key).first()`. Which of
      several equal keys the database returns is not fixed; the model takes
      the first in list order. */
  function FirstBy<T(!new)>(xs: seq<T>, key: T -> int): (r: Option<T>)
    ensures r.None? <==> xs == []
    ensures r.Some? ==> r.value in xs && forall x :: x in xs ==> key(r.value) <= key(x)
  {
    if xs == [] then None
    else
      var rest := FirstBy(xs[1..], key);
      assert forall x :: x in xs <==> x == xs[0] || x in xs[1..];
      if rest.Some? && key(rest.value) < key(xs[0]) then rest else Some(xs[0])
  }

  /** `filter(order__gt=bound)`. */
  function Above<T(!new)>(xs: seq<T>, key: T -> int, bound: int): (r: seq<T>)
    ensures forall x :: x in r <==> x in xs && key(x) > bound
  {
    if xs == [] then []
    else
      var rest := Above(xs[1..], key, bound);
      assert forall x :: x in xs <==> x == xs[0] || x in xs[1..];
      if key(xs[0]) > bound then [xs[0]] + rest else rest
  }

  function LessonOrder(l: Lesson): int { l.order }
  function ModuleOrder(m: CourseModule): int { m.order }

  datatype Completion = Completion(isCompleted: bool, nextLessonId: Option<nat>)

  /** `complete_lesson` for `lesson` of module `current` in a course with
      modules `mods`, the progress record having been `wasCompleted`. */
  function CompleteLesson(mods: seq<CourseModule>, current: CourseModule, lesson: Lesson, wasCompleted: bool): (r: Completion)
    ensures r.isCompleted == !wasCompleted
    ensures wasCompleted ==> r.nextLessonId == Some(lesson.id)
    ensures (!wasCompleted && (forall l :: l in current.lessons ==> l.order <= lesson.order)
             && forall m :: m in mods ==> m.order <= current.order) ==>
      r.nextLessonId == Some(lesson.id)
  {
    if wasCompleted then Completion(false, Some(lesson.id))
    else
      var later := FirstBy(Above(current.lessons, LessonOrder, lesson.order), LessonOrder);
      if later.Some? then Completion(true, Some(later.value.id))
      else
        var nextModule := FirstBy(Above(mods, ModuleOrder, current.order), ModuleOrder);
        if nextModule.Some? then
          var first := FirstBy(nextModule.value.lessons, LessonOrder);
          Completion(true, if first.Some? then Some(first.value.id) else None)
        else Completion(true, Some(lesson.id))
  }

  /** Completing a lesson with a later lesson in its module moves on to the
      next one by order in that module. */
  lemma CompleteLessonNextInModule(mods: seq<CourseModule>, current: CourseModule, lesson: Lesson)
    requires exists l :: l in current.lessons && l.order > lesson.order
    ensures var r := CompleteLesson(mods, current, lesson, false);
      exists l :: l in current.lessons && l.order > lesson.order && r.nextLessonId == Some(l.id)
        && forall k :: k in current.lessons && k.order > lesson.order ==> l.order <= k.order
  {
    var above := Above(current.lessons, LessonOrder, lesson.order);
    var l :| l in current.lessons && l.order > lesson.order;
    assert l in above;
    var later := FirstBy(above, LessonOrder);
    assert later.value in above;
    forall k | k in current.lessons && k.order > lesson.order
      ensures later.value.order <= k.order
    {
      assert k in above;
    }
  }

  /** Completing the last lesson of a module moves on to the first lesson
      of the next module by order, or to nothing when that module is
      empty. */
  lemma CompleteLessonNextModule(mods: seq<CourseModule>, current: CourseModule, lesson: Lesson)
    requires forall l :: l in current.lessons ==> l.order <= lesson.order
    requires exists m :: m in mods && m.order > current.order
    ensures var r := CompleteLesson(mods, current, lesson, false);
      exists m :: m in mods && m.order > current.order
        && (forall k :: k in mods && k.order > current.order ==> m.order <= k.order)
        && (m.lessons == [] ==> r.nextLessonId.None?)
        && (m.lessons != [] ==>
              exists l :: l in m.lessons && r.nextLessonId == Some(l.id)
                && forall k :: k in m.lessons ==> l.order <= k.order)
  {
    var next := NextModuleIs(mods, current);
    var r := CompleteLesson(mods, current, lesson, false);
    NoLaterLesson(current, lesson);
    var first := FirstBy(next.lessons, LessonOrder);
    assert r.nextLessonId == (if first.Some? then Some(first.value.id) else None);
    if next.lessons != [] {
      var l := first.value;
      assert l in next.lessons && r.nextLessonId == Some(l.id);
      assert forall k :: k in next.lessons ==> LessonOrder(l) <= LessonOrder(k);
    }
  }

  /** Without a later lesson the module's filter is empty. */
  lemma NoLaterLesson(current: CourseModule, lesson: Lesson)
    requires forall l :: l in current.lessons ==> l.order <= lesson.order
    ensures Above(current.lessons, LessonOrder, lesson.order) == []
  {
    AboveNothing(current.lessons, LessonOrder, lesson.order);
  }

  lemma {:induction false} AboveNothing<T(!new)>(xs: seq<T>, key: T -> int, bound: int)
    requires forall i :: 0 <= i < |xs| ==> key(xs[i]) <= bound
    ensures Above(xs, key, bound) == []
  {
    if xs != [] {
      AboveNothing(xs[1..], key, bound);
    }
  }

  /** The module the database query picks: a later one of least order. */
  lemma NextModuleIs(mods: seq<CourseModule>, current: CourseModule) returns (next: CourseModule)
    requires exists m :: m in mods && m.order > current.order
    ensures FirstBy(Above(mods, ModuleOrder, current.order), ModuleOrder) == Some(next)
    ensures next in mods && next.order > current.order
    ensures forall k :: k in mods && k.order > current.order ==> next.order <= k.order
  {
    var above := Above(mods, ModuleOrder, current.order);
    var m0 :| m0 in mods && m0.order > current.order;
    assert m0 in above;
    next := FirstBy(above, ModuleOrder).value;
    assert next in above;
    forall k | k in mods && k.order > current.order
      ensures next.order <= k.order
    {
      assert k in above;
      assert ModuleOrder(next) <= ModuleOrder(k);
    }
  }

  /** Marking twice restores the completion state, and unmarking always
      points back at the lesson itself. */
  lemma CompleteLessonToggles(mods: seq<CourseModule>, current: CourseModule, lesson: Lesson, wasCompleted: bool)
    ensures var once := CompleteLesson(mods, current, lesson, wasCompleted);
      var twice := CompleteLesson(mods, current, lesson, once.isCompleted);
      twice.isCompleted == wasCompleted
      && (once.isCompleted ==> twice.nextLessonId == Some(lesson.id))
  {
  }

  // ---------------------------------------------------------------------
  // Order numbers of new modules and lessons

  /** `(aggregate(Max('order')) or 0) + 1`. */
  function NextOrder(orders: seq<nat>): (r: nat)
    ensures r >= 1
    ensures forall o :: o in orders ==> o < r
    ensures r == 1 || r - 1 in orders
  {
    if orders == [] then 1
    else
      var rest := NextOrder(orders[1..]);
      assert forall o :: o in orders <==> o == orders[0] || o in orders[1..];
      if orders[0] + 1 > rest then orders[0] + 1 else rest
  }

  predicate DistinctOrders(orders: seq<nat>)
  {
    forall i, j :: 0 <= i < j < |orders| ==> orders[i] != orders[j]
  }

  /** Creating modules or lessons one after another gives each a fresh order
      number greater than all before it, so orders stay distinct and the
      newest item sorts last. */
  lemma {:induction false} CreateKeepsOrdersDistinct(orders: seq<nat>)
    requires DistinctOrders(orders)
    ensures var next := orders + [NextOrder(orders)];
      DistinctOrders(next)
      && forall i :: 0 <= i < |orders| ==> next[i] < next[|orders|]
  {
    var r := NextOrder(orders);
    var next := orders + [r];
    forall i | 0 <= i < |orders|
      ensures next[i] < r
    {
      assert next[i] == orders[i] && orders[i] in orders;
    }
  }
}
