/** The hard-coded window rule. The source compiles two regular expressions,
    `^librewolf$` for the application id and `^.*Bitwarden.*$` for the title,
    and applies them to the window's text with an absent value read as "".
    Without multi-line mode `^` and `$` only match at the ends of the text, and
    `.` matches every character except a line feed. The matching is written here
    as plain string predicates; the ghost predicates below give the patterns'
    meaning and the lemmas tie the two together. */
module Rule {
  import opened Ipc

  const LibreWolf: string := "librewolf"
  const Bitwarden: string := "Bitwarden"

  /** `p` occurs in `s` starting at index `i`. */
  ghost predicate OccursAt(s: string, p: string, i: int) {
    0 <= i && i + |p| <= |s| && s[i..i + |p|] == p
  }

  lemma OccursAtShift(s: string, p: string, i: int)
    requires 0 < i && |s| > 0
    ensures OccursAt(s, p, i) <==> OccursAt(s[1..], p, i - 1)
  {
    if i + |p| <= |s| {
      assert s[i..i + |p|] == s[1..][i - 1..i - 1 + |p|];
    }
  }

  /** `p` occurs somewhere in `s`. */
  function Contains(s: string, p: string): (r: bool)
    ensures r <==> exists i :: OccursAt(s, p, i)
    decreases |s|
  {
    if |s| < |p| then false
    else if s[..|p|] == p then
      assert OccursAt(s, p, 0);
      true
    else
      var rest := Contains(s[1..], p);
      assert !OccursAt(s, p, 0);
      assert forall i | 0 < i :: OccursAt(s, p, i) <==> OccursAt(s[1..], p, i - 1) by {
        forall i | 0 < i ensures OccursAt(s, p, i) <==> OccursAt(s[1..], p, i - 1) {
          OccursAtShift(s, p, i);
        }
      }
      assert (exists i :: OccursAt(s[1..], p, i)) ==> exists i :: OccursAt(s, p, i) by {
        if exists i :: OccursAt(s[1..], p, i) {
          var i :| OccursAt(s[1..], p, i);
          OccursAtShift(s, p, i + 1);
        }
      }
      rest
  }

  predicate NoNewline(s: string) {
    '\n' !in s
  }

  /** What `.*` matches: any run of characters none of which is a line feed. */
  ghost predicate DotStar(s: string) {
    forall k | 0 <= k < |s| :: s[k] != '\n'
  }

  /** The text matches `^.*L.*$` for the literal `lit`: it splits as
      `a + lit + b` with `a` and `b` each matched by `.*`. */
  ghost predicate MatchesDotStarAround(t: string, lit: string) {
    exists i :: OccursAt(t, lit, i) && DotStar(t[..i]) && DotStar(t[i + |lit|..])
  }

  /** The text matches `^lit$`: the literal occurs at the start (`^`) and ends
      where the text ends (`$`). */
  ghost predicate MatchesAnchoredLiteral(t: string, lit: string) {
    OccursAt(t, lit, 0) && |lit| == |t|
  }

  lemma NoNewlineIsDotStar(s: string)
    ensures NoNewline(s) <==> DotStar(s)
  {
    if !NoNewline(s) {
      var k :| 0 <= k < |s| && s[k] == '\n';
    }
  }

  /** `^.*Bitwarden.*$` matches exactly the titles that contain "Bitwarden" and
      no line feed. */
  lemma TitlePatternMeaning(t: string)
    ensures MatchesDotStarAround(t, Bitwarden) <==> NoNewline(t) && Contains(t, Bitwarden)
  {
    var n := |Bitwarden|;
    NoNewlineIsDotStar(t);
    if MatchesDotStarAround(t, Bitwarden) {
      var i :| OccursAt(t, Bitwarden, i) && DotStar(t[..i]) && DotStar(t[i + n..]);
      forall k | 0 <= k < |t| ensures t[k] != '\n' {
        if k < i {
          assert t[k] == t[..i][k];
        } else if k < i + n {
          assert t[k] == Bitwarden[k - i];
        } else {
          assert t[k] == t[i + n..][k - i - n];
        }
      }
    }
    if NoNewline(t) && Contains(t, Bitwarden) {
      var i :| OccursAt(t, Bitwarden, i);
      assert DotStar(t[..i]) && DotStar(t[i + n..]);
    }
  }

  /** `^librewolf$` matches exactly the text "librewolf". */
  lemma AppIdPatternMeaning(a: string)
    ensures MatchesAnchoredLiteral(a, LibreWolf) <==> a == LibreWolf
  {
    if a == LibreWolf {
      assert a[0..|LibreWolf|] == LibreWolf;
    }
  }

  /** `rule_applies`: the window's title and application id, absent ones read
      as "", match their patterns. */
  function RuleApplies(window: Window): (r: bool)
    ensures r <==> MatchesAnchoredLiteral(window.appId.UnwrapOr(""), LibreWolf)
                   && MatchesDotStarAround(window.title.UnwrapOr(""), Bitwarden)
  {
    var title := window.title.UnwrapOr("");
    var appId := window.appId.UnwrapOr("");
    TitlePatternMeaning(title);
    AppIdPatternMeaning(appId);
    var titleMatch := NoNewline(title) && Contains(title, Bitwarden);
    var appIdMatch := appId == LibreWolf;
    titleMatch && appIdMatch
  }

  /** The rule holds exactly when the application id is "librewolf" and the
      title contains "Bitwarden" on a single line; absent values never match. */
  lemma RuleAppliesExactly(window: Window)
    ensures RuleApplies(window) <==>
      window.appId == Some(LibreWolf) && window.title.Some?
      && Contains(window.title.value, Bitwarden) && '\n' !in window.title.value
  {
    var title := window.title.UnwrapOr("");
    TitlePatternMeaning(title);
    AppIdPatternMeaning(window.appId.UnwrapOr(""));
    if window.title.None? {
      assert !Contains(title, Bitwarden);
    }
  }

  /** Only the title and the application id decide the rule: the identifier,
      the process, the workspace and the state flags play no part. */
  lemma RuleIgnoresOtherFields(w1: Window, w2: Window)
    requires w1.title == w2.title && w1.appId == w2.appId
    ensures RuleApplies(w1) == RuleApplies(w2)
  {
  }
}
