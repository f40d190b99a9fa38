/** Concrete runs of the handler: one Bitwarden window of LibreWolf opened,
    re-reported, closed and reopened, and what a multi-line title, an error
    reply and a transport error do to it. */
module Scenarios {
  import opened Ipc
  import opened Rule
  import opened Handler

  const Vault: Window := Window(42, Some("Bitwarden - librewolf"), Some("librewolf"), None, None, false, false)

  /** Every send is answered `Handled`. */
  const AllHandled: Env := k => Delivered(Handled)

  /** Every send is answered with an error reply. */
  const AllRejected: Env := k => Delivered(ErrorReply("no such window"))

  /** The first send fails at the transport level, later ones are handled. */
  const FirstSendBroken: Env := k => if k == 0 then TransportError("broken pipe") else Delivered(Handled)

  lemma VaultMatches()
    ensures RuleApplies(Vault)
  {
    assert OccursAt(Vault.title.value, Bitwarden, 0);
    RuleAppliesExactly(Vault);
  }

  /** The single steps of the run below. */
  lemma VaultSteps()
    ensures var f := FloatCommand(42);
      && Step(Initial, WindowOpenedOrChanged(Vault), AllHandled) == State({42}, [f], false)
      && Step(State({42}, [f], false), WindowOpenedOrChanged(Vault), AllHandled) == State({42}, [f, f], false)
      && Step(State({42}, [f, f], false), WindowClosed(42), AllHandled) == State({}, [f, f], false)
      && Step(State({}, [f, f], false), OtherEvent, AllHandled) == State({}, [f, f], false)
      && Step(State({}, [f, f], false), WindowOpenedOrChanged(Vault), AllHandled) == State({42}, [f, f, f], false)
  {
    VaultMatches();
    assert {42} + {42} == {42};
  }

  /** The window floats on every event that carries it, also while its id is
      still in the set; closing only empties the set. */
  lemma VaultFloatsOnEveryEvent()
    ensures var input := [Received(WindowOpenedOrChanged(Vault)), Received(WindowOpenedOrChanged(Vault)),
                          Received(WindowClosed(42)), Received(OtherEvent), Received(WindowOpenedOrChanged(Vault))];
      Run(Initial, input, AllHandled) == State({42}, [FloatCommand(42), FloatCommand(42), FloatCommand(42)], false)
  {
    VaultSteps();
    var f := FloatCommand(42);
    var final := State({42}, [f, f, f], false);
    var input := [Received(WindowOpenedOrChanged(Vault)), Received(WindowOpenedOrChanged(Vault)),
                  Received(WindowClosed(42)), Received(OtherEvent), Received(WindowOpenedOrChanged(Vault))];
    assert Run(State({}, [f, f], false), input[4..], AllHandled) == final by {
      assert input[4..][1..] == [];
    }
    assert Run(State({}, [f, f], false), input[3..], AllHandled) == final by {
      assert input[3..][1..] == input[4..];
    }
    assert Run(State({42}, [f, f], false), input[2..], AllHandled) == final by {
      assert input[2..][1..] == input[3..];
    }
    assert Run(State({42}, [f], false), input[1..], AllHandled) == final by {
      assert input[1..][1..] == input[2..];
    }
  }

  /** A line feed in the title defeats `^.*Bitwarden.*$`. */
  lemma MultiLineTitleNeverMatches()
    ensures !RuleApplies(Vault.(title := Some("Bitwarden\nvault")))
  {
    RuleAppliesExactly(Vault.(title := Some("Bitwarden\nvault")));
    assert "Bitwarden\nvault"[9] == '\n';
  }

  /** An application id that merely contains "librewolf" does not match
      `^librewolf$`. */
  lemma LongerAppIdNeverMatches()
    ensures !RuleApplies(Vault.(appId := Some("librewolf-nightly")))
  {
    RuleAppliesExactly(Vault.(appId := Some("librewolf-nightly")));
  }

  /** Error replies change nothing: the same commands go out and the loop keeps
      going. */
  lemma ErrorRepliesIgnored(input: seq<Read>)
    ensures Run(Initial, input, AllRejected) == Run(Initial, input, AllHandled)
  {
    RepliesIgnored(Initial, input, AllRejected, AllHandled);
  }

  /** A transport error panics on the spot: the second event is never handled. */
  lemma TransportErrorPanics()
    ensures var input := [Received(WindowOpenedOrChanged(Vault)), Received(WindowOpenedOrChanged(Vault))];
      Run(Initial, input, FirstSendBroken) == State({42}, [FloatCommand(42)], true)
  {
    VaultMatches();
  }

  /** A window list floats the matching windows in list order, skipping the
      others. */
  lemma WindowsChangedKeepsListOrder()
    ensures var other := Vault.(id := 7, appId := None);
      var twin := Vault.(id := 9);
      Run(Initial, [Received(WindowsChanged([twin, other, Vault]))], AllHandled)
      == State({9, 42}, [FloatCommand(9), FloatCommand(42)], false)
  {
    var other := Vault.(id := 7, appId := None);
    var twin := Vault.(id := 9);
    VaultMatches();
    RuleIgnoresOtherFields(Vault, twin);
    RuleAppliesExactly(other);
    var s1 := State({9}, [FloatCommand(9)], false);
    assert HandleWindow(Initial, twin, AllHandled) == s1;
    assert HandleWindow(s1, other, AllHandled) == s1;
    var s3 := State({9, 42}, [FloatCommand(9), FloatCommand(42)], false);
    assert HandleWindow(s1, Vault, AllHandled) == s3;
    var ws := [twin, other, Vault];
    assert HandleWindows(s3, ws[3..], AllHandled) == s3;
    assert HandleWindows(s1, ws[2..], AllHandled) == s3 by {
      assert ws[2..][1..] == ws[3..];
    }
    assert HandleWindows(s1, ws[1..], AllHandled) == s3 by {
      assert ws[1..][1..] == ws[2..];
    }
    assert HandleWindows(Initial, ws, AllHandled) == s3;
  }
}
