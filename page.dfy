/** The page state the script changes in place: the contact form's inputs, the
    notification nodes in the body, the menu flags, the navbar's inline background,
    the projects grid and activity container, and the hero name being typed. Each
    event handler or timer callback of the script is a method. */
module PortfolioPage {
  import opened Notifications
  import opened ContactForm
  import opened Projects
  import opened Navigation
  import opened Typewriter

  class Page {
    // The contact form's four inputs.
    var name: string
    var email: string
    var subject: string
    var message: string

    // The `.notification` nodes in document.body, in document order, and the
    // identity the next created node gets.
    var toasts: seq<Toast>
    var nextToastId: nat

    // The `active` classes of `.hamburger` and `.nav-menu`.
    var hamburgerActive: bool
    var navMenuActive: bool

    // The navbar's inline `style.background` ("" until the first scroll event).
    var navbarBackground: string

    // The children of #projects-grid and the content of .activity-container.
    var projectsGrid: seq<GridItem>
    var activity: ActivityArea

    // The `.name` element's text, and the typing callback's captured text and counter.
    var nameText: string
    var typingText: string
    var typingIndex: nat
    var typingStarted: bool

    /** The form's inputs as one value. */
    function FormFields(): Fields
      reads this`name, this`email, this`subject, this`message
    {
      Fields(name, email, subject, message)
    }

    function Menu(): MenuFlags
      reads this`hamburgerActive, this`navMenuActive
    {
      MenuFlags(hamburgerActive, navMenuActive)
    }

    function TypingState(): Typing
      reads this`typingIndex, this`nameText
    {
      Typing(typingIndex, nameText)
    }

    /** The page's invariant: at most one toast, numbered below the next id, and the
        two menu flags agree. */
    ghost predicate Valid()
      reads this`toasts, this`nextToastId, this`hamburgerActive, this`navMenuActive
    {
      (toasts == [] || (|toasts| == 1 && toasts[0].id < nextToastId)) && InSync(Menu())
    }

    /** The typing animation's invariant: once it has started, the name element shows
        the part of the original name before the counter. */
    ghost predicate TypingValid()
      reads this`typingStarted, this`typingText, this`typingIndex, this`nameText
    {
      typingStarted ==> Typed(typingText, TypingState())
    }

    /** The page as loaded: empty inputs, no toast, menu closed, no inline navbar
        style, the shipped grid and activity content, the hero name in full. */
    constructor (heroName: string, initialGrid: seq<GridItem>)
      ensures Valid() && TypingValid()
      ensures FormFields() == Cleared && toasts == [] && Menu() == MenuClosed
      ensures navbarBackground == "" && projectsGrid == initialGrid
      ensures activity == StaticActivity
      ensures nameText == heroName && !typingStarted
    {
      name, email, subject, message := "", "", "", "";
      toasts, nextToastId := [], 0;
      hamburgerActive, navMenuActive := false, false;
      navbarBackground := "";
      projectsGrid, activity := initialGrid, StaticActivity;
      nameText, typingText, typingIndex, typingStarted := heroName, "", 0, false;
    }

    // -------------------------------------------------------------------------
    // Notifications

    /** showNotification(msg, kind): returns the new node's identity, which its two
        timers hold. Afterwards the new toast is the only one on the page. */
    method ShowNotification(msg: string, kind: Kind) returns (id: nat)
      requires Valid()
      modifies this`toasts, this`nextToastId
      ensures Valid()
      ensures id == old(nextToastId) && nextToastId == id + 1
      ensures toasts == Show(old(toasts), id, msg, kind)
      ensures toasts == [Toast(id, msg, kind, false)]
    {
      id := nextToastId;
      ghost var before := toasts;
      if toasts != [] {
        toasts := toasts[1..];
      }
      toasts := toasts + [Toast(id, msg, kind, false)];
      ShowKeepsAtMostOne(before, id, msg, kind);
      assert toasts == Show(before, id, msg, kind);
      nextToastId := nextToastId + 1;
    }

    /** The 5000 ms timer of toast `id`: its slide-out animation starts. */
    method ToastTimeout(id: nat)
      requires Valid()
      modifies this`toasts
      ensures Valid()
      ensures toasts == StartLeaving(old(toasts), id)
    {
      toasts := StartLeaving(toasts, id);
    }

    /** The 300 ms timer of toast `id`: the node is removed if it is still in the page;
        a toast that was already replaced leaves the page as it is. */
    method ToastRemovalTimeout(id: nat)
      requires Valid()
      modifies this`toasts
      ensures Valid()
      ensures toasts == Remove(old(toasts), id)
      ensures id !in Ids(old(toasts)) ==> toasts == old(toasts)
      ensures id in Ids(old(toasts)) ==> toasts == []
    {
      var i := 0;
      while i < |toasts| && toasts[i].id != id
        invariant 0 <= i <= |toasts|
        invariant forall k | 0 <= k < i :: toasts[k].id != id
      {
        i := i + 1;
      }
      if i < |toasts| {
        RemoveOnlyOwn(toasts, id, i);
        toasts := toasts[..i] + toasts[i + 1..];
      } else {
        RemoveAbsent(toasts, id);
      }
    }

    // -------------------------------------------------------------------------
    // Contact form

    /** The submit handler: the verdict's toast is shown, then the form is reset only
        when the submission was accepted. */
    method Submit() returns (toastId: nat)
      requires Valid()
      modifies this`name, this`email, this`subject, this`message
      modifies this`toasts, this`nextToastId
      ensures Valid()
      ensures var v := Validate(old(FormFields()));
        toasts == [Toast(toastId, FeedbackMessage(v), FeedbackKind(v), false)]
      ensures toastId == old(nextToastId)
      ensures FormFields() == FieldsAfter(old(FormFields()))
    {
      // The handler reads the four input values first, then runs its two checks in
      // order (`Validate`); each outcome shows its own toast, and only acceptance
      // resets the form.
      var n, e, sub, msg := name, email, subject, message;
      var v := Validate(Fields(n, e, sub, msg));
      toastId := ShowNotification(FeedbackMessage(v), FeedbackKind(v));
      if v == Accepted {
        name, email, subject, message := "", "", "", "";
      }
    }

    // -------------------------------------------------------------------------
    // Navigation

    /** A click on the hamburger. */
    method ClickHamburger()
      requires Valid()
      modifies this`hamburgerActive, this`navMenuActive
      ensures Valid()
      ensures Menu() == ToggleMenu(old(Menu()))
    {
      hamburgerActive := !hamburgerActive;
      navMenuActive := !navMenuActive;
    }

    /** A click on a nav link (its smooth scrolling is not part of this model). */
    method ClickNavLink()
      requires Valid()
      modifies this`hamburgerActive, this`navMenuActive
      ensures Valid()
      ensures Menu() == CloseMenu(old(Menu()))
    {
      hamburgerActive := false;
      navMenuActive := false;
    }

    /** A scroll event at vertical offset `scrollY`. */
    method Scroll(scrollY: real)
      modifies this`navbarBackground
      ensures navbarBackground == NavbarBackground(scrollY)
    {
      if scrollY > 100.0 {
        navbarBackground := ScrolledBackground;
      } else {
        navbarBackground := TopBackground;
      }
    }

    // -------------------------------------------------------------------------
    // GitHub integration

    /** showNoRepositories. */
    method ShowNoRepositories()
      modifies this`projectsGrid
      ensures projectsGrid == [NoRepositoriesCard]
    {
      projectsGrid := [NoRepositoriesCard];
    }

    /** showGitHubError: both regions get their notice. */
    method ShowGitHubError()
      modifies this`projectsGrid, this`activity
      ensures projectsGrid == [UnableToLoadCard]
      ensures activity == ActivityUnavailable
    {
      projectsGrid := [UnableToLoadCard];
      activity := ActivityUnavailable;
    }

    /** fetchUserRepositories, given what the fetch produced: a non-empty array clears
        the grid and appends one card per repository; otherwise one notice. */
    method FetchUserRepositories(response: RepoResponse)
      modifies this`projectsGrid, this`activity
      ensures projectsGrid == GridFor(response)
      ensures activity == if response.Failed? then ActivityUnavailable else old(activity)
    {
      match response {
        case ArrayBody(repos) =>
          if |repos| > 0 {
            projectsGrid := [];
            for k := 0 to |repos|
              invariant projectsGrid == CardsOf(repos[..k])
              invariant activity == old(activity)
            {
              assert repos[..k + 1] == repos[..k] + [repos[k]];
              projectsGrid := projectsGrid + [CardOf(repos[k])];
            }
            assert repos[..|repos|] == repos;
          } else {
            ShowNoRepositories();
          }
        case ObjectBody =>
          ShowNoRepositories();
        case Failed =>
          ShowGitHubError();
      }
    }

    /** fetchGitHubActivity's effect on the page: the activity container is emptied and
        gets the calendar placeholder (loading the widget's script and stylesheet is not
        part of this model). */
    method FetchGitHubActivity()
      modifies this`activity
      ensures activity == CalendarEmbed
    {
      activity := CalendarEmbed;
    }

    /** initGitHubIntegration: repositories first, then the activity. The notice a failed
        repository fetch puts in the activity container is replaced by the calendar. */
    method InitGitHubIntegration(response: RepoResponse)
      modifies this`projectsGrid, this`activity
      ensures projectsGrid == GridFor(response)
      ensures activity == CalendarEmbed
    {
      FetchUserRepositories(response);
      FetchGitHubActivity();
    }

    // -------------------------------------------------------------------------
    // Typing animation

    /** initTypingAnimation: capture the name, empty the element, counter at zero. */
    method StartTyping()
      requires TypingValid() && !typingStarted
      modifies this`nameText, this`typingText, this`typingIndex, this`typingStarted
      ensures TypingValid() && typingStarted
      ensures typingText == old(nameText) && TypingState() == Start
    {
      typingText := nameText;
      nameText := "";
      typingIndex := 0;
      typingStarted := true;
    }

    /** One firing of the `typeWriter` callback. */
    method TypeWriterTick()
      requires TypingValid() && typingStarted
      modifies this`nameText, this`typingIndex
      ensures TypingValid()
      ensures TypingState() == Tick(typingText, old(TypingState()))
    {
      TickKeepsTyped(typingText, TypingState());
      if typingIndex < |typingText| {
        nameText := nameText + [typingText[typingIndex]];
        typingIndex := typingIndex + 1;
      }
    }

    /** The chain of timer firings until the callback stops scheduling itself: the
        element then shows the original name again. */
    method TypeUntilDone()
      requires TypingValid() && typingStarted
      modifies this`nameText, this`typingIndex
      ensures TypingValid()
      ensures nameText == typingText && typingIndex == |typingText|
    {
      while typingIndex < |typingText|
        invariant TypingValid()
        decreases |typingText| - typingIndex
      {
        TypeWriterTick();
      }
    }
  }
}
