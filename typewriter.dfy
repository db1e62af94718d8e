/** The typing animation of the hero name (`initTypingAnimation` and its `typeWriter`
    callback): each firing appends the next character of the original text. */
module Typewriter {

  /** The callback's state: the counter `i` and the element's displayed text. */
  datatype Typing = Typing(i: nat, shown: string)

  /** What `initTypingAnimation` leaves: the text emptied, the counter at zero. */
  const Start := Typing(0, "")

  /** One firing of `typeWriter` for original text `text`: while `i < text.length`,
      append `text.charAt(i)` and advance `i`; otherwise do nothing (and schedule
      nothing more). */
  function Tick(text: string, t: Typing): (r: Typing)
    ensures t.i <= r.i <= t.i + 1
    ensures t.shown <= r.shown && |r.shown| <= |t.shown| + 1
    ensures r == t <==> t.i >= |text|
  {
    if t.i < |text| then Typing(t.i + 1, t.shown + [text[t.i]]) else t
  }

  /** The state after `k` firings. */
  function Run(text: string, k: nat): Typing {
    if k == 0 then Start else Tick(text, Run(text, k - 1))
  }

  /** The animation's invariant: the counter is within the text and the displayed
      text is the part of the original before it. */
  predicate Typed(text: string, t: Typing) {
    t.i <= |text| && t.shown == text[..t.i]
  }

  /** One firing keeps the invariant. */
  lemma TickKeepsTyped(text: string, t: Typing)
    requires Typed(text, t)
    ensures Typed(text, Tick(text, t))
    ensures t.i < |text| ==> Tick(text, t).i == t.i + 1
  {
    if t.i < |text| {
      assert text[..t.i + 1] == text[..t.i] + [text[t.i]];
    }
  }

  /** After k firings the displayed text is the first min(k, length) characters. */
  lemma {:induction false} RunShowsPrefix(text: string, k: nat)
    ensures Run(text, k).i == if k <= |text| then k else |text|
    ensures Typed(text, Run(text, k))
  {
    if k > 0 {
      RunShowsPrefix(text, k - 1);
      TickKeepsTyped(text, Run(text, k - 1));
    }
  }

  /** Once as many firings as characters have happened, the whole name is shown and
      further firings change nothing. */
  lemma RunStops(text: string, k: nat)
    requires k >= |text|
    ensures Run(text, k) == Typing(|text|, text)
    ensures Tick(text, Run(text, k)) == Run(text, k)
  {
    RunShowsPrefix(text, k);
  }
}
