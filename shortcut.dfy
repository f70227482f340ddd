/**
 The accelerator grammar that the `set-shortcut` handler accepts. It is
 written once as the regular expression reads and once through `split('+')`,
 and the two are proved to agree.
 */
module Shortcut {
  import opened Text

  /** The modifier names the pattern allows, in its order. */
  const MODIFIERS: seq<string> := ["CommandOrControl", "Control", "Alt", "Shift", "Meta", "Super"]

  /** The accelerator of the default configuration and of the fallback
      registration. */
  const DEFAULT_SHORTCUT: string := "CommandOrControl+M"

  /** `[A-Za-z0-9]` */
  predicate IsKeyChar(c: char)
  {
    'A' <= c <= 'Z' || 'a' <= c <= 'z' || '0' <= c <= '9'
  }

  /** `[A-Za-z0-9]$` at the end of the pattern: exactly one key character. */
  predicate IsKey(s: string)
  {
    |s| == 1 && IsKeyChar(s[0])
  }

  /** The pattern `^M(\+M)*\+K$` over a list `mods` of modifier names, with
      K a key character. It denotes the same strings as `^(M\+)+K$`, which is
      how it is read here: a modifier and a `+`, then either the key or again
      a string of this form. */
  predicate Accepts(mods: seq<string>, s: string)
    decreases |s|
  {
    exists i :: 0 <= i < |mods| && mods[i] + "+" <= s &&
      var rest := s[|mods[i]| + 1..];
      IsKey(rest) || Accepts(mods, rest)
  }

  /** The test of `set-shortcut`: the pattern with the six modifiers. */
  predicate IsValidShortcut(s: string)
  {
    Accepts(MODIFIERS, s)
  }

  /** The same grammar through `s.split('+')`: at least two pieces, every
      piece but the last a modifier, the last one key character. */
  predicate SegmentsAccepted(mods: seq<string>, s: string)
  {
    PartsAccepted(mods, Split(s, '+'))
  }

  /** At least two pieces, every piece but the last in `mods`, the last one
      key character. */
  predicate PartsAccepted(mods: seq<string>, parts: seq<string>)
  {
    && |parts| >= 2
    && (forall k :: 0 <= k < |parts| - 1 ==> parts[k] in mods)
    && IsKey(parts[|parts| - 1])
  }

  predicate SegmentsValid(s: string)
  {
    SegmentsAccepted(MODIFIERS, s)
  }

  lemma ModifiersHaveNoPlus()
    ensures forall i :: 0 <= i < |MODIFIERS| ==> '+' !in MODIFIERS[i]
  {
    assert '+' !in MODIFIERS[0] && '+' !in MODIFIERS[1] && '+' !in MODIFIERS[2];
    assert '+' !in MODIFIERS[3] && '+' !in MODIFIERS[4] && '+' !in MODIFIERS[5];
  }

  /** Putting a modifier and `+` in front of a key, or of a string whose
      pieces have the accepted form, gives a string whose pieces have it. */
  lemma ConsSegments(mods: seq<string>, m: string, rest: string)
    requires m in mods && '+' !in m
    requires IsKey(rest) || SegmentsAccepted(mods, rest)
    ensures SegmentsAccepted(mods, m + "+" + rest)
  {
    var restParts := Split(rest, '+');
    var parts := Split(m + "+" + rest, '+');
    assert parts == [m] + restParts by {
      SplitAtSeparator(m, rest, '+');
    }
    if IsKey(rest) {
      assert restParts == [rest] by {
        assert rest == [rest[0]];
        SplitWithoutSeparator(rest, '+');
      }
    } else {
      forall k | 0 <= k < |parts| - 1 ensures parts[k] in mods {
        if k > 0 {
          assert parts[k] == restParts[k - 1];
        }
      }
    }
  }

  /** The pattern accepts a modifier and `+` followed by a key or by a
      string it accepts. */
  lemma AcceptsCons(mods: seq<string>, i: int, rest: string)
    requires 0 <= i < |mods|
    requires IsKey(rest) || Accepts(mods, rest)
    ensures Accepts(mods, mods[i] + "+" + rest)
  {
    var s := mods[i] + "+" + rest;
    assert mods[i] + "+" <= s;
    assert s[|mods[i]| + 1..] == rest;
  }

  /** An accepted string starts with a modifier and `+`, followed by a key or
      by a shorter accepted string. */
  lemma AcceptsHead(mods: seq<string>, s: string) returns (m: string, rest: string)
    requires Accepts(mods, s)
    ensures m in mods && s == m + "+" + rest
    ensures IsKey(rest) || Accepts(mods, rest)
  {
    var i :| 0 <= i < |mods| && mods[i] + "+" <= s &&
      var rest := s[|mods[i]| + 1..];
      IsKey(rest) || Accepts(mods, rest);
    m := mods[i];
    rest := s[|m| + 1..];
    PrefixRest(m + "+", s);
  }

  /** A string is its prefix `p` followed by what comes after `p`. */
  lemma PrefixRest(p: string, s: string)
    requires p <= s
    ensures s == p + s[|p|..]
  {
    assert s[..|p|] == p;
  }

  lemma {:induction false} AcceptedHasAcceptedSegments(mods: seq<string>, s: string)
    requires forall i :: 0 <= i < |mods| ==> '+' !in mods[i]
    requires Accepts(mods, s)
    ensures SegmentsAccepted(mods, s)
    decreases |s|
  {
    var m, rest := AcceptsHead(mods, s);
    assert '+' !in m;
    if !IsKey(rest) {
      AcceptedHasAcceptedSegments(mods, rest);
    }
    ConsSegments(mods, m, rest);
  }

  /** Separator-free pieces of the accepted form, joined by `+`, give a
      string whose pieces have the accepted form. */
  lemma SegmentsFromParts(mods: seq<string>, parts: seq<string>)
    requires |parts| >= 2
    requires forall k :: 0 <= k < |parts| ==> '+' !in parts[k]
    requires forall k :: 0 <= k < |parts| - 1 ==> parts[k] in mods
    requires IsKey(parts[|parts| - 1])
    ensures SegmentsAccepted(mods, Join(parts, '+'))
  {
    SplitJoin(parts, '+');
  }

  lemma {:induction false} AcceptedSegmentsAreAccepted(mods: seq<string>, s: string)
    requires SegmentsAccepted(mods, s)
    ensures Accepts(mods, s)
    decreases |s|
  {
    var parts := Split(s, '+');
    assert parts[0] in mods;
    var i :| 0 <= i < |mods| && mods[i] == parts[0];
    var rest := Join(parts[1..], '+');
    assert s == mods[i] + "+" + rest by {
      JoinSplit(s, '+');
    }
    if |parts| == 2 {
      assert rest == parts[1];
    } else {
      var tail := parts[1..];
      forall k | 0 <= k < |tail| ensures '+' !in tail[k] && (k < |tail| - 1 ==> tail[k] in mods) {
        assert tail[k] == parts[k + 1];
      }
      SegmentsFromParts(mods, tail);
      AcceptedSegmentsAreAccepted(mods, rest);
    }
    AcceptsCons(mods, i, rest);
  }

  /** The pattern and the split-based reading accept the same strings. */
  lemma ValidIffSegmentsValid(s: string)
    ensures IsValidShortcut(s) <==> SegmentsValid(s)
  {
    ModifiersHaveNoPlus();
    if IsValidShortcut(s) {
      AcceptedHasAcceptedSegments(MODIFIERS, s);
    }
    if SegmentsValid(s) {
      AcceptedSegmentsAreAccepted(MODIFIERS, s);
    }
  }

  /** A modifier is required: a bare key is refused. */
  lemma BareKeyRefused()
    ensures !IsValidShortcut("J")
  {
    SplitsInto("J", ["J"]);
    ValidIffSegmentsValid("J");
  }

  /** One modifier and a key are accepted. */
  lemma ControlJAccepted()
    ensures IsValidShortcut("Control+J")
  {
    SplitsInto("Control+J", ["Control", "J"]);
    ValidIffSegmentsValid("Control+J");
    assert Split("Control+J", '+')[0] == MODIFIERS[1];
  }

  /** The default accelerator passes the test. */
  lemma DefaultAccepted()
    ensures IsValidShortcut(DEFAULT_SHORTCUT)
  {
    SplitsInto(DEFAULT_SHORTCUT, ["CommandOrControl", "M"]);
    ValidIffSegmentsValid(DEFAULT_SHORTCUT);
    assert Split(DEFAULT_SHORTCUT, '+')[0] == MODIFIERS[0];
  }

  /** One of the examples the settings panel suggests under its input is
      refused: in `Alt+Space` the key is a name, not one key character. */
  lemma HintAltSpaceRefused()
    ensures !IsValidShortcut("Alt+Space")
  {
    SplitsInto("Alt+Space", ["Alt", "Space"]);
    ValidIffSegmentsValid("Alt+Space");
  }

  /** A concrete accelerator written as its pieces splits into them. */
  lemma SplitsInto(s: string, parts: seq<string>)
    requires |parts| >= 1 && Join(parts, '+') == s
    requires forall i :: 0 <= i < |parts| ==> '+' !in parts[i]
    ensures Split(s, '+') == parts
  {
    SplitJoin(parts, '+');
  }
}
