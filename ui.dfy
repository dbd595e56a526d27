/** The dock window with its Qt parts taken away: which applications become
    buttons, the selection moved by the arrow keys, the highlight of the
    selected button, visibility, and the command line a launch would run. */
module Ui {
  import opened Wrappers
  import opened Text
  import opened Entries

  /** At most this many applications are considered for buttons. */
  const MaxButtons: nat := 6

  function Min(a: int, b: int): int {
    if a < b then a else b
  }

  /** `app["Main Entry"]["Icon"]` is truthy. */
  predicate HasIcon(app: Parsed) {
    app.main.icon.Some? && app.main.icon.value != ""
  }

  /** The applications of `apps` that have an icon, in order. */
  function WithIcons(apps: seq<Parsed>): (r: seq<Parsed>)
    ensures |r| <= |apps|
    ensures forall k :: 0 <= k < |r| ==> HasIcon(r[k]) && r[k] in apps
  {
    if apps == [] then []
    else
      var init := apps[..|apps| - 1];
      var last := apps[|apps| - 1];
      assert forall a :: a in init ==> a in apps;
      WithIcons(init) + (if HasIcon(last) then [last] else [])
  }

  /** The applications that get a button: those of `apps[:6]` with an
      icon. */
  function ButtonApps(apps: seq<Parsed>): (r: seq<Parsed>)
    ensures |r| <= MaxButtons
    ensures forall k :: 0 <= k < |r| ==> HasIcon(r[k]) && r[k] in apps[..Min(MaxButtons, |apps|)]
  {
    WithIcons(apps[..Min(MaxButtons, |apps|)])
  }

  /** Every application with an icon gets into the filtered list. */
  lemma {:induction false} WithIconsComplete(apps: seq<Parsed>)
    ensures forall i :: 0 <= i < |apps| && HasIcon(apps[i]) ==> apps[i] in WithIcons(apps)
  {
    if apps != [] {
      var init := apps[..|apps| - 1];
      WithIconsComplete(init);
      forall i | 0 <= i < |apps| - 1 ensures apps[i] == init[i] { }
    }
  }

  /** Filtering keeps the applications' order. */
  lemma {:induction false} WithIconsAppend(a: seq<Parsed>, b: seq<Parsed>)
    ensures WithIcons(a + b) == WithIcons(a) + WithIcons(b)
    decreases |b|
  {
    if b == [] {
      assert a + b == a;
    } else {
      var init := b[..|b| - 1];
      assert (a + b)[..|a + b| - 1] == a + init;
      assert (a + b)[|a + b| - 1] == b[|b| - 1];
      WithIconsAppend(a, init);
    }
  }

  /** An application placed after the first six never gets a button, even
      when none of the first six has an icon. */
  lemma ButtonsIgnoreLaterApps(first: seq<Parsed>, later: seq<Parsed>)
    requires |first| == MaxButtons
    ensures ButtonApps(first + later) == WithIcons(first)
  {
    assert (first + later)[..MaxButtons] == first;
  }

  /** No icon among the first six means no button at all. */
  lemma {:induction false} NoIconNoButton(apps: seq<Parsed>)
    requires forall i :: 0 <= i < |apps| ==> !HasIcon(apps[i])
    ensures WithIcons(apps) == []
  {
    if apps != [] {
      NoIconNoButton(apps[..|apps| - 1]);
    }
  }

  // ---------------------------------------------------------------------
  // The selection ring (Python's `%` with a positive right operand never
  // gives a negative result, like Dafny's)

  /** Right arrow. */
  function NextIndex(i: int, n: int): (r: int)
    requires n > 0
    ensures 0 <= r < n
  {
    (i + 1) % n
  }

  /** Left arrow. */
  function PrevIndex(i: int, n: int): (r: int)
    requires n > 0
    ensures 0 <= r < n
  {
    (i - 1) % n
  }

  /** Left undoes Right and Right undoes Left. */
  lemma NextPrevInverse(i: int, n: int)
    requires 0 <= i < n
    ensures PrevIndex(NextIndex(i, n), n) == i
    ensures NextIndex(PrevIndex(i, n), n) == i
  {
    NextIndexInRange(i, n);
    PrevIndexInRange(i, n);
    NextIndexInRange(PrevIndex(i, n), n);
    PrevIndexInRange(NextIndex(i, n), n);
  }

  /** From the last button Right wraps to the first; elsewhere it moves one
      place on. */
  lemma NextIndexInRange(i: int, n: int)
    requires 0 <= i < n
    ensures NextIndex(i, n) == if i + 1 == n then 0 else i + 1
  {
    if i + 1 == n {
      ModUnique(i + 1, n, 1, 0);
    } else {
      ModUnique(i + 1, n, 0, i + 1);
    }
  }

  /** From the first button Left wraps to the last; elsewhere it moves one
      place back. */
  lemma PrevIndexInRange(i: int, n: int)
    requires 0 <= i < n
    ensures PrevIndex(i, n) == if i == 0 then n - 1 else i - 1
  {
    if i == 0 {
      ModUnique(i - 1, n, -1, n - 1);
    } else {
      ModUnique(i - 1, n, 0, i - 1);
    }
  }

  /** `k` presses of Right. */
  function Rights(i: int, n: int, k: nat): (r: int)
    requires n > 0
  {
    if k == 0 then i else NextIndex(Rights(i, n, k - 1), n)
  }

  /** `k` presses of Right move the selection `k` places round the ring, so
      `n` presses come back to where they started. */
  lemma {:induction false} RightsCycle(i: int, n: int, k: nat)
    requires 0 <= i < n
    ensures Rights(i, n, k) == (i + k) % n
    ensures k == n ==> Rights(i, n, k) == i
  {
    if k > 0 {
      RightsCycle(i, n, k - 1);
      NextOfMod(i + k - 1, n);
    }
    if k == n {
      ModUnique(i + n, n, 1, i);
    }
  }

  /** One press of Right from `x % n` lands on `(x + 1) % n`. */
  lemma NextOfMod(x: int, n: int)
    requires n > 0
    ensures NextIndex(x % n, n) == (x + 1) % n
  {
    var q := x / n;
    var j := x % n;
    ModUnique(x, n, q, j);
    NextIndexInRange(j, n);
    if j + 1 == n {
      ModUnique(x + 1, n, q + 1, 0);
    } else {
      ModUnique(x + 1, n, q, j + 1);
    }
  }

  /** Quotient and remainder are the only ones: Python's `%` and Dafny's
      agree whenever the divisor is positive. */
  lemma ModUnique(x: int, n: int, q: int, r: int)
    requires n > 0 && 0 <= r < n && x == q * n + r
    ensures x % n == r && x / n == q
  {
    var q0, r0 := x / n, x % n;
    assert x == q0 * n + r0;
    if q0 < q {
      MulAtLeast(q - q0, n);
    } else if q0 > q {
      MulAtLeast(q0 - q, n);
    }
  }

  lemma {:induction false} MulAtLeast(a: int, n: int)
    requires a >= 1 && n > 0
    ensures a * n >= n
    decreases a
  {
    if a > 1 {
      MulAtLeast(a - 1, n);
      assert a * n == (a - 1) * n + n;
    }
  }

  // ---------------------------------------------------------------------
  // The command line of a launch

  /** The argument vector `launch_app(exec)` hands to `Popen`, or `None`
      when no process is started: no `Exec` (the `None` raises and is
      caught), an empty command (an empty argument vector raises and is
      caught), or a `flatpak run` command while a user is set. */
  function LaunchArgv(user: Option<string>, exec: Option<string>): (r: Option<seq<string>>)
    ensures r.Some? ==> exec.Some? && |r.value| > 0
    ensures r.Some? && user.Some? ==>
              |r.value| >= 3 && r.value[..3] == ["sudo", "-u", user.value] && !Contains(exec.value, "flatpak run")
    ensures r.Some? && user.None? ==> r.value == SplitWs(exec.value)
    ensures exec.Some? && user.Some? && !Contains(exec.value, "flatpak run") ==>
              r == Some(["sudo", "-u", user.value] + SplitWs(exec.value))
    ensures exec.Some? && user.None? && SplitWs(exec.value) != [] ==> r == Some(SplitWs(exec.value))
  {
    if exec.None? then None
    else if user.None? then
      if SplitWs(exec.value) == [] then None else Some(SplitWs(exec.value))
    else if Contains(exec.value, "flatpak run") then None
    else Some(["sudo", "-u", user.value] + SplitWs(exec.value))
  }

  /** A command written as whitespace-separated tokens is launched with
      exactly those tokens, after the `sudo -u <user>` prefix when a user is
      set; field codes such as `%u` are passed on untouched. */
  lemma LaunchArgvTokens(user: Option<string>, tokens: seq<string>)
    requires tokens != []
    requires forall k :: 0 <= k < |tokens| ==> tokens[k] != [] && NoSpace(tokens[k])
    requires user.Some? ==> !Contains(JoinSpaced(tokens), "flatpak run")
    ensures LaunchArgv(user, Some(JoinSpaced(tokens))) ==
              Some(if user.Some? then ["sudo", "-u", user.value] + tokens else tokens)
  {
    SplitWsJoinSpaced(tokens);
  }

  lemma FieldCodeExample()
    ensures LaunchArgv(None, Some("firefox %u")) == Some(["firefox", "%u"])
  {
    var tokens := ["firefox", "%u"];
    assert JoinSpaced(tokens) == "firefox %u" by {
      assert tokens[1..] == ["%u"];
    }
    assert NoSpace("firefox") && NoSpace("%u");
    LaunchArgvTokens(None, tokens);
  }

  /** With a user set, a command containing `flatpak run` is refused. */
  lemma FlatpakRefusedForUser(user: string, exec: string)
    requires Contains(exec, "flatpak run")
    ensures LaunchArgv(Some(user), Some(exec)) == None
  {
  }

  // ---------------------------------------------------------------------
  // The dock

  datatype Key = RightKey | LeftKey | ReturnKey | DownKey | OtherKey

  /** An exception escaping the key handler. */
  datatype KeyError = ZeroDivision | IndexOutOfRange

  datatype KeyOutcome =
    | Moved
    | Launched(argv: Option<seq<string>>)
    | MenuOpened(actions: seq<Entry>)
    | Ignored
    | Raised(error: KeyError)

  class Dock {
    var nonRootUser: Option<string>
    var apps: seq<Parsed>
    /** The application behind each button, in layout order. */
    var buttons: seq<Parsed>
    /** Per button: whether it carries the highlighted style. */
    var highlighted: seq<bool>
    var selectedIndex: int
    var visible: bool
    /** The application has been asked to quit (`QApplication.quit()`). */
    var quitRequested: bool

    /** The buttons are those of `apps`, the selection is a button (or 0
        when there is none), and exactly the selected button is
        highlighted. */
    ghost predicate Valid()
      reads this
    {
      && buttons == ButtonApps(apps)
      && |highlighted| == |buttons|
      && 0 <= selectedIndex
      && (selectedIndex < |buttons| || selectedIndex == 0)
      && forall k :: 0 <= k < |buttons| ==> highlighted[k] == (k == selectedIndex)
    }

    /** `DockUI(apps, non_root_user)`: a new window is hidden. */
    constructor (apps: seq<Parsed>, nonRootUser: Option<string>)
      ensures Valid()
      ensures this.apps == apps && this.nonRootUser == nonRootUser
      ensures buttons == ButtonApps(apps) && selectedIndex == 0
      ensures !visible && !quitRequested
    {
      this.nonRootUser := nonRootUser;
      this.apps := apps;
      buttons := [];
      highlighted := [];
      selectedIndex := 0;
      visible := false;
      quitRequested := false;
      new;
      InitUI(apps);
    }

    /** `initUI`: one button per application of `apps[:6]` that has an
        icon, created plain; then the first is selected. */
    method InitUI(apps: seq<Parsed>)
      requires this.apps == apps
      modifies this`buttons, this`highlighted, this`selectedIndex
      ensures Valid()
      ensures buttons == ButtonApps(apps) && selectedIndex == 0
    {
      var shown := apps[..Min(MaxButtons, |apps|)];
      buttons := [];
      highlighted := [];
      for k := 0 to |shown|
        invariant buttons == WithIcons(shown[..k])
        invariant |highlighted| == |buttons|
      {
        assert shown[..k + 1][..k] == shown[..k];
        if HasIcon(shown[k]) {
          buttons := buttons + [shown[k]];
          highlighted := highlighted + [false];
        }
      }
      assert shown[..|shown|] == shown;
      selectedIndex := 0;
      UpdateSelection();
    }

    /** `update_selection`: restyle every button. */
    method UpdateSelection()
      requires |highlighted| == |buttons|
      modifies this`highlighted
      ensures |highlighted| == |buttons|
      ensures forall k :: 0 <= k < |buttons| ==> highlighted[k] == (k == selectedIndex)
    {
      for k := 0 to |buttons|
        invariant |highlighted| == |buttons|
        invariant forall m :: 0 <= m < k ==> highlighted[m] == (m == selectedIndex)
      {
        highlighted := highlighted[k := k == selectedIndex];
      }
    }

    /** `toggle_visibility`. */
    method ToggleVisibility()
      modifies this`visible
      ensures visible == !old(visible)
    {
      if visible {
        visible := false;
      } else {
        visible := true;
      }
    }

    /** `handle_stop_signal`. */
    method HandleStopSignal()
      modifies this`quitRequested
      ensures quitRequested
    {
      quitRequested := true;
    }

    /** `launch_app(exec)`: the dock is hidden first, whatever happens
        next. */
    method LaunchApp(exec: Option<string>) returns (argv: Option<seq<string>>)
      modifies this`visible
      ensures !visible
      ensures argv == LaunchArgv(nonRootUser, exec)
    {
      visible := false;
      argv := LaunchArgv(nonRootUser, exec);
    }

    /** A click on button `k` launches the `Exec` its app had when the
        button was made. */
    method ClickButton(k: nat) returns (argv: Option<seq<string>>)
      requires Valid() && k < |buttons|
      modifies this`visible
      ensures !visible
      ensures argv == LaunchArgv(nonRootUser, buttons[k].main.exec)
    {
      argv := LaunchApp(buttons[k].main.exec);
    }

    /** `keyPressEvent`. */
    method KeyPress(key: Key) returns (outcome: KeyOutcome)
      requires Valid()
      modifies this`selectedIndex, this`highlighted, this`visible
      ensures Valid()
      ensures key == RightKey || key == LeftKey ==>
                && visible == old(visible)
                && if |buttons| == 0 then
                     outcome == Raised(ZeroDivision) && selectedIndex == old(selectedIndex)
                   else
                     && outcome == Moved
                     && selectedIndex == (if key == RightKey then NextIndex(old(selectedIndex), |buttons|)
                                          else PrevIndex(old(selectedIndex), |buttons|))
      ensures key == ReturnKey ==>
                && selectedIndex == old(selectedIndex)
                && if |buttons| == 0 then
                     outcome == Raised(IndexOutOfRange) && visible == old(visible)
                   else
                     outcome == Launched(LaunchArgv(nonRootUser, buttons[selectedIndex].main.exec)) && !visible
      ensures key == DownKey ==>
                && selectedIndex == old(selectedIndex) && visible == old(visible)
                && if |buttons| == 0 then outcome == Raised(IndexOutOfRange)
                   else if buttons[selectedIndex].actions != [] then outcome == MenuOpened(buttons[selectedIndex].actions)
                   else outcome == Ignored
      ensures key == OtherKey ==>
                outcome == Ignored && selectedIndex == old(selectedIndex) && visible == old(visible)
    {
      var n := |buttons|;
      match key
      case RightKey =>
        if n == 0 {
          return Raised(ZeroDivision);
        }
        selectedIndex := NextIndex(selectedIndex, n);
        UpdateSelection();
        outcome := Moved;
      case LeftKey =>
        if n == 0 {
          return Raised(ZeroDivision);
        }
        selectedIndex := PrevIndex(selectedIndex, n);
        UpdateSelection();
        outcome := Moved;
      case ReturnKey =>
        if n == 0 {
          return Raised(IndexOutOfRange);
        }
        var argv := LaunchApp(buttons[selectedIndex].main.exec);
        outcome := Launched(argv);
      case DownKey =>
        if n == 0 {
          return Raised(IndexOutOfRange);
        }
        var actions := buttons[selectedIndex].actions;
        if actions != [] {
          outcome := MenuOpened(actions);
        } else {
          outcome := Ignored;
        }
      case OtherKey =>
        outcome := Ignored;
    }
  }
}
