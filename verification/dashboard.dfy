/** The dashboard page: a carousel over the recommended courses and the feedback form. */
module Dashboard {
  import opened Wrappers
  import opened Strings
  import CourseFilter

  /** JavaScript's `a % n` for a positive `n`: the remainder takes the sign of `a` (truncating
      division), unlike Dafny's Euclidean `%`. */
  function JsRem(a: int, n: int): (r: int)
    requires n > 0
    ensures -n < r < n
    ensures a >= 0 ==> r == a % n
    ensures a < 0 ==> r <= 0
    ensures (a - r) % n == 0
  {
    if a >= 0 then
      ModUnique(a - a % n, n, a / n, 0);
      a % n
    else
      var q := (-a) / n;
      assert -(q * n) == (-q) * n;
      ModUnique(a + (-a) % n, n, -q, 0);
      -((-a) % n)
  }

  /** A multiple of at least one `n` is at least `n`. */
  lemma {:induction false} MulAtLeast(d: int, n: int)
    requires d >= 1 && n > 0
    ensures d * n >= n
    decreases d
  {
    if d > 1 {
      MulAtLeast(d - 1, n);
      assert d * n == (d - 1) * n + n;
    }
  }

  /** Euclidean division has one remainder: whatever `a == q * n + r` with `0 <= r < n` says. */
  lemma ModUnique(a: int, n: int, q: int, r: int)
    requires n > 0 && 0 <= r < n && a == q * n + r
    ensures a % n == r
  {
    var q', r' := a / n, a % n;
    assert a == q' * n + r';
    if q > q' {
      assert (q - q') * n == q * n - q' * n;
      MulAtLeast(q - q', n);
    } else if q < q' {
      assert (q' - q) * n == q' * n - q * n;
      MulAtLeast(q' - q, n);
    }
    assert q == q';
  }

  /** `handleNext`: `(i + 1) % n`. */
  function Next(i: int, n: int): (r: int)
    requires n > 0 && i >= 0
    ensures 0 <= r < n
    ensures i < n ==> r == if i == n - 1 then 0 else i + 1
  {
    StepForward(i, n);
    JsRem(i + 1, n)
  }

  lemma StepForward(i: int, n: int)
    requires n > 0 && i >= 0
    ensures i < n ==> (i + 1) % n == if i == n - 1 then 0 else i + 1
  {
    if i < n {
      if i == n - 1 { ModUnique(i + 1, n, 1, 0); } else { ModUnique(i + 1, n, 0, i + 1); }
    }
  }

  /** `handlePrev`: `(i - 1 + n) % n`. */
  function Prev(i: int, n: int): (r: int)
    requires n > 0 && i >= 0
    ensures 0 <= r < n
    ensures i < n ==> r == if i == 0 then n - 1 else i - 1
  {
    StepBack(i, n);
    JsRem(i - 1 + n, n)
  }

  lemma StepBack(i: int, n: int)
    requires n > 0 && i >= 0
    ensures i < n ==> (i - 1 + n) % n == if i == 0 then n - 1 else i - 1
  {
    if i < n {
      if i == 0 { ModUnique(i - 1 + n, n, 0, n - 1); } else { ModUnique(i - 1 + n, n, 1, i - 1); }
    }
  }

  /** Back after forward returns to the same card. */
  lemma PrevAfterNext(i: int, n: int)
    requires n > 0 && 0 <= i < n
    ensures Prev(Next(i, n), n) == i
  {
  }

  /** Forward after back returns to the same card. */
  lemma NextAfterPrev(i: int, n: int)
    requires n > 0 && 0 <= i < n
    ensures Next(Prev(i, n), n) == i
  {
  }

  /** The card reached after `k` presses of "next". */
  function Advance(i: int, n: int, k: nat): (r: int)
    requires n > 0 && 0 <= i < n
    ensures 0 <= r < n
  {
    if k == 0 then i else Next(Advance(i, n, k - 1), n)
  }

  /** `k` presses of "next" move `k` places round the ring. */
  lemma {:induction false} AdvanceMovesRound(i: int, n: int, k: nat)
    requires n > 0 && 0 <= i < n
    ensures Advance(i, n, k) == (i + k) % n
  {
    if k > 0 {
      AdvanceMovesRound(i, n, k - 1);
      ModNext(i + k - 1, n);
    }
  }

  /** Stepping one place past a remainder. */
  lemma ModNext(a: int, n: int)
    requires a >= 0 && n > 0
    ensures (a + 1) % n == if a % n == n - 1 then 0 else a % n + 1
  {
    var q, r := a / n, a % n;
    assert a == q * n + r;
    if r == n - 1 {
      assert a + 1 == (q + 1) * n + 0;
      ModUnique(a + 1, n, q + 1, 0);
    } else {
      ModUnique(a + 1, n, q, r + 1);
    }
  }

  /** `n` presses of "next" come back to the starting card. */
  lemma FullCircle(i: int, n: int)
    requires n > 0 && 0 <= i < n
    ensures Advance(i, n, n) == i
  {
    AdvanceMovesRound(i, n, n);
    ModUnique(i + n, n, 1, i);
  }

  /** The page's state. */
  class DashboardPage {
    var courses: seq<CourseFilter.Course>
    var loading: bool
    var currentIndex: int
    var feedback: string
    var submittingFeedback: bool
    var feedbackSuccess: bool

    ghost predicate Valid()
      reads this
    {
      currentIndex >= 0
    }

    /** The carousel, its arrows and its dots are on the page only when loading is over and there is
        at least one course. */
    function ShowsCarousel(): bool
      reads this
    {
      !loading && |courses| > 0
    }

    /** The card on display, if the index points into the list. */
    function CurrentCourse(): Option<CourseFilter.Course>
      reads this
      requires Valid()
    {
      if currentIndex < |courses| then Some(courses[currentIndex]) else None
    }

    /** The submit button is enabled only when nothing is being submitted and the text is not blank. */
    function SubmitEnabled(): (r: bool)
      reads this
      ensures r ==> !IsBlank(feedback)
    {
      TrimSpec(feedback);
      !submittingFeedback && Trim(feedback) != ""
    }

    constructor ()
      ensures Valid() && courses == [] && loading && currentIndex == 0
      ensures feedback == "" && !submittingFeedback && !feedbackSuccess
    {
      courses := [];
      loading := true;
      currentIndex := 0;
      feedback := "";
      submittingFeedback := false;
      feedbackSuccess := false;
    }

    /** The fetch effect: the recommendations replace the list when they arrive (an error keeps the
        old list); loading ends either way. The index is left where it was. */
    method ReceiveRecommendations(fetched: Option<seq<CourseFilter.Course>>)
      requires Valid()
      modifies this
      ensures Valid() && !loading
      ensures courses == if fetched.Some? then fetched.value else old(courses)
      ensures currentIndex == old(currentIndex) && feedback == old(feedback)
      ensures submittingFeedback == old(submittingFeedback) && feedbackSuccess == old(feedbackSuccess)
    {
      if fetched.Some? {
        courses := fetched.value;
      }
      loading := false;
    }

    /** The right arrow. */
    method HandleNext()
      requires Valid() && ShowsCarousel()
      modifies this
      ensures Valid() && currentIndex == Next(old(currentIndex), |old(courses)|)
      ensures 0 <= currentIndex < |courses| && CurrentCourse().Some?
      ensures courses == old(courses) && loading == old(loading) && feedback == old(feedback)
      ensures submittingFeedback == old(submittingFeedback) && feedbackSuccess == old(feedbackSuccess)
    {
      currentIndex := Next(currentIndex, |courses|);
    }

    /** The left arrow. */
    method HandlePrev()
      requires Valid() && ShowsCarousel()
      modifies this
      ensures Valid() && currentIndex == Prev(old(currentIndex), |old(courses)|)
      ensures 0 <= currentIndex < |courses| && CurrentCourse().Some?
      ensures courses == old(courses) && loading == old(loading) && feedback == old(feedback)
      ensures submittingFeedback == old(submittingFeedback) && feedbackSuccess == old(feedbackSuccess)
    {
      currentIndex := Prev(currentIndex, |courses|);
    }

    /** A dot: one per course, each selecting its own card. */
    method SelectDot(idx: int)
      requires Valid() && ShowsCarousel() && 0 <= idx < |courses|
      modifies this
      ensures courses == old(courses)
      ensures Valid() && currentIndex == idx && CurrentCourse() == Some(courses[idx]) && loading == old(loading) && feedback == old(feedback)
      ensures submittingFeedback == old(submittingFeedback) && feedbackSuccess == old(feedbackSuccess)
    {
      currentIndex := idx;
    }

    /** Typing in the feedback box. */
    method EditFeedback(text: string)
      requires Valid()
      modifies this
      ensures Valid() && feedback == text
      ensures courses == old(courses) && loading == old(loading) && currentIndex == old(currentIndex)
      ensures submittingFeedback == old(submittingFeedback) && feedbackSuccess == old(feedbackSuccess)
    {
      feedback := text;
    }

    /** The synchronous start of `handleSubmitFeedback`: blank text is never sent and changes
        nothing. Otherwise the form enters the submitting state, which disables the button, and the
        text as it stands now is the text sent (`sent`). */
    method StartSubmit() returns (sent: Option<string>)
      requires Valid()
      modifies this
      ensures Valid()
      ensures sent.Some? ==> !IsBlank(sent.value) && submittingFeedback && !SubmitEnabled()
      ensures IsBlank(old(feedback)) <==> sent == None
      ensures sent == None ==> submittingFeedback == old(submittingFeedback)
      ensures sent != None ==> sent == Some(old(feedback))
      ensures feedback == old(feedback) && feedbackSuccess == old(feedbackSuccess)
      ensures courses == old(courses) && loading == old(loading) && currentIndex == old(currentIndex)
    {
      TrimSpec(feedback);
      if Trim(feedback) == "" {
        return None;
      }
      submittingFeedback := true;
      sent := Some(feedback);
    }

    /** What follows the awaited request: when the back end accepts the text, the box is cleared
        (along with anything typed while the request was in flight) and the success message shown;
        when it fails, text and message stay. Either way the form stops submitting. */
    method FinishSubmit(accepted: bool)
      requires Valid()
      modifies this
      ensures Valid() && !submittingFeedback
      ensures accepted ==> feedback == "" && feedbackSuccess
      ensures !accepted ==> feedback == old(feedback) && feedbackSuccess == old(feedbackSuccess)
      ensures courses == old(courses) && loading == old(loading) && currentIndex == old(currentIndex)
    {
      if accepted {
        feedbackSuccess := true;
        feedback := "";
      }
      submittingFeedback := false;
    }

    /** `handleSubmitFeedback` run through with no typing while the request is in flight: blank
        text is neither sent nor changes anything. Otherwise the text is sent (`sent`); when the
        back end accepts it the box is cleared and the success message shown, and either way the
        form is no longer submitting. */
    method HandleSubmitFeedback(accepted: bool) returns (sent: Option<string>)
      requires Valid()
      modifies this
      ensures Valid()
      ensures sent.Some? ==> !IsBlank(sent.value)
      ensures IsBlank(old(feedback)) ==>
                && sent == None && feedback == old(feedback)
                && submittingFeedback == old(submittingFeedback) && feedbackSuccess == old(feedbackSuccess)
      ensures !IsBlank(old(feedback)) ==>
                && sent == Some(old(feedback)) && !submittingFeedback
                && (accepted ==> feedback == "" && feedbackSuccess)
                && (!accepted ==> feedback == old(feedback) && feedbackSuccess == old(feedbackSuccess))
      ensures courses == old(courses) && loading == old(loading) && currentIndex == old(currentIndex)
    {
      sent := StartSubmit();
      if sent.Some? {
        FinishSubmit(accepted);
      }
    }

    /** The five-second timer after a successful submission hides the success message. */
    method ClearSuccess()
      requires Valid()
      modifies this
      ensures Valid() && !feedbackSuccess
      ensures courses == old(courses) && loading == old(loading) && currentIndex == old(currentIndex)
      ensures feedback == old(feedback) && submittingFeedback == old(submittingFeedback)
    {
      feedbackSuccess := false;
    }
  }
}
