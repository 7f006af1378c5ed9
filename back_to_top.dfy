/** The back-to-top control's scroll rule (js/main.js, lines 47-53): on every
    scroll event the control has class 'show' exactly when the page's vertical
    offset exceeds 300 pixels. Offsets are reals: pageYOffset may be fractional. */
module BackToTop {
  const Threshold: real := 300.0

  /** One scroll event: add 'show' when the offset is over the threshold,
      remove it otherwise. No other class is touched. */
  function OnScroll(classes: set<string>, offset: real): (r: set<string>)
    ensures "show" in r <==> offset > Threshold
    ensures r - {"show"} == classes - {"show"}
  {
    if offset > Threshold then classes + {"show"} else classes - {"show"}
  }

  /** The control's classes after the scroll events with these offsets, in order. */
  function AfterScrolls(classes: set<string>, offsets: seq<real>): set<string>
    decreases |offsets|
  {
    if offsets == [] then classes else AfterScrolls(OnScroll(classes, offsets[0]), offsets[1..])
  }

  /** No history and no hysteresis: after any run of scroll events the control
      is shown exactly when the latest offset is over the threshold, and its
      other classes are what they were. */
  lemma {:induction false} ShownIffLatestOffset(classes: set<string>, offsets: seq<real>)
    requires |offsets| > 0
    ensures "show" in AfterScrolls(classes, offsets) <==> offsets[|offsets| - 1] > Threshold
    ensures AfterScrolls(classes, offsets) - {"show"} == classes - {"show"}
    decreases |offsets|
  {
    var next := OnScroll(classes, offsets[0]);
    if |offsets| > 1 {
      ShownIffLatestOffset(next, offsets[1..]);
      assert offsets[1..][|offsets| - 2] == offsets[|offsets| - 1];
    }
  }
}
