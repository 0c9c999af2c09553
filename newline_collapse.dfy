/** The substitution `re.sub(r'\n{3,}', '\n\n', contenu)` applied to each article body
    before it is transliterated into Braille. */
module NewlineCollapse {

  /** The length of the run of newlines that starts `s`. */
  function NewlineRun(s: string): (k: nat)
    ensures k <= |s|
    ensures forall i :: 0 <= i < k ==> s[i] == '\n'
    ensures k < |s| ==> s[k] != '\n'
    decreases |s|
  {
    if s != [] && s[0] == '\n' then 1 + NewlineRun(s[1..]) else 0
  }

  /** The regular-expression scan: at each position the greedy pattern `\n{3,}` either takes
      the whole run of newlines starting there (when it has at least three) and emits two
      newlines in its place, or fails, so one character is copied and the scan moves on. */
  function CollapseNewlines(s: string): (r: string)
    ensures |r| <= |s|
    decreases |s|
  {
    if s == [] then []
    else
      var k := NewlineRun(s);
      if k >= 3 then "\n\n" + CollapseNewlines(s[k..])
      else [s[0]] + CollapseNewlines(s[1..])
  }

  /** Three newlines in a row somewhere in `s`. */
  predicate HasTripleNewline(s: string) {
    exists i :: 0 <= i < |s| - 2 && s[i] == '\n' && s[i + 1] == '\n' && s[i + 2] == '\n'
  }

  /** `s` with every newline removed. */
  function DropNewlines(s: string): (r: string)
    ensures '\n' !in r
    decreases |s|
  {
    if s == [] then [] else (if s[0] == '\n' then [] else [s[0]]) + DropNewlines(s[1..])
  }

  /** Run by run: a run of three or more newlines becomes exactly two, a run of one or two is
      copied whole, and the scan resumes after the run. */
  lemma CollapseRun(s: string)
    requires NewlineRun(s) >= 1
    ensures var k := NewlineRun(s);
      CollapseNewlines(s) == (if k >= 3 then "\n\n" else s[..k]) + CollapseNewlines(s[k..])
  {
    var k := NewlineRun(s);
    if k == 1 {
      assert CollapseNewlines(s) == [s[0]] + CollapseNewlines(s[1..]);
      assert s[..1] == [s[0]];
    } else if k == 2 {
      var t := s[1..];
      assert NewlineRun(t) == 1;
      assert CollapseNewlines(s) == [s[0]] + CollapseNewlines(t);
      assert CollapseNewlines(t) == [t[0]] + CollapseNewlines(t[1..]);
      assert t[1..] == s[2..];
      assert s[..2] == [s[0]] + [t[0]];
    }
  }

  /** A character other than a newline is copied to the front of the result. */
  lemma CollapseKeepsHead(s: string)
    requires s != [] && s[0] != '\n'
    ensures CollapseNewlines(s) == [s[0]] + CollapseNewlines(s[1..])
  {
  }

  lemma NoTripleAfterOther(c: char, t: string)
    requires c != '\n'
    requires !HasTripleNewline(t)
    ensures !HasTripleNewline([c] + t)
  {
    var u := [c] + t;
    forall i | 0 <= i < |u| - 2 ensures !(u[i] == '\n' && u[i + 1] == '\n' && u[i + 2] == '\n') {
      if i > 0 {
        assert u[i] == t[i - 1] && u[i + 1] == t[i] && u[i + 2] == t[i + 1];
        assert !(t[i - 1] == '\n' && t[i] == '\n' && t[i + 1] == '\n');
      }
    }
  }

  lemma NoTripleAfterShortRun(p: string, t: string)
    requires |p| <= 2
    requires t == [] || t[0] != '\n'
    requires !HasTripleNewline(t)
    ensures !HasTripleNewline(p + t)
  {
    var u := p + t;
    forall i | 0 <= i < |u| - 2 ensures !(u[i] == '\n' && u[i + 1] == '\n' && u[i + 2] == '\n') {
      if i >= |p| {
        var j := i - |p|;
        assert u[i] == t[j] && u[i + 1] == t[j + 1] && u[i + 2] == t[j + 2];
        assert !(t[j] == '\n' && t[j + 1] == '\n' && t[j + 2] == '\n');
      } else {
        assert u[|p|] == t[0];
      }
    }
  }

  /** After the substitution no three newlines follow one another. */
  lemma {:induction false} CollapseLeavesNoTriple(s: string)
    ensures !HasTripleNewline(CollapseNewlines(s))
    decreases |s|
  {
    if s != [] {
      var k := NewlineRun(s);
      if k == 0 {
        CollapseLeavesNoTriple(s[1..]);
        NoTripleAfterOther(s[0], CollapseNewlines(s[1..]));
      } else {
        CollapseRun(s);
        CollapseLeavesNoTriple(s[k..]);
        if k < |s| {
          CollapseKeepsHead(s[k..]);
        }
        NoTripleAfterShortRun(if k >= 3 then "\n\n" else s[..k], CollapseNewlines(s[k..]));
      }
    }
  }

  lemma ShortRunWhenNoTriple(s: string)
    requires !HasTripleNewline(s)
    ensures NewlineRun(s) < 3
  {
    if |s| >= 3 {
      assert !(s[0] == '\n' && s[1] == '\n' && s[2] == '\n');
    }
  }

  lemma NoTripleSuffix(s: string, k: nat)
    requires k <= |s|
    requires !HasTripleNewline(s)
    ensures !HasTripleNewline(s[k..])
  {
    var t := s[k..];
    forall i | 0 <= i < |t| - 2 ensures !(t[i] == '\n' && t[i + 1] == '\n' && t[i + 2] == '\n') {
      assert t[i] == s[k + i] && t[i + 1] == s[k + i + 1] && t[i + 2] == s[k + i + 2];
      assert !(s[k + i] == '\n' && s[k + i + 1] == '\n' && s[k + i + 2] == '\n');
    }
  }

  /** Text without three newlines in a row passes through unchanged. */
  lemma {:induction false} CollapseFixesClean(s: string)
    requires !HasTripleNewline(s)
    ensures CollapseNewlines(s) == s
    decreases |s|
  {
    if s != [] {
      var k := NewlineRun(s);
      ShortRunWhenNoTriple(s);
      if k == 0 {
        NoTripleSuffix(s, 1);
        CollapseFixesClean(s[1..]);
        assert s == [s[0]] + s[1..];
      } else {
        CollapseRun(s);
        NoTripleSuffix(s, k);
        CollapseFixesClean(s[k..]);
        assert s == s[..k] + s[k..];
      }
    }
  }

  /** Applying the substitution twice changes nothing more. */
  lemma CollapseIdempotent(s: string)
    ensures CollapseNewlines(CollapseNewlines(s)) == CollapseNewlines(s)
  {
    CollapseLeavesNoTriple(s);
    CollapseFixesClean(CollapseNewlines(s));
  }

  lemma {:induction false} DropNewlinesAppend(a: string, b: string)
    ensures DropNewlines(a + b) == DropNewlines(a) + DropNewlines(b)
    decreases |a|
  {
    if a == [] {
      assert a + b == b;
    } else {
      assert (a + b)[1..] == a[1..] + b;
      DropNewlinesAppend(a[1..], b);
    }
  }

  lemma {:induction false} DropNewlinesOfRun(s: string, k: nat)
    requires k <= NewlineRun(s)
    ensures DropNewlines(s[..k]) == []
    decreases k
  {
    if k > 0 {
      assert s[..k][1..] == s[1..][..k - 1];
      DropNewlinesOfRun(s[1..], k - 1);
    }
  }

  /** Only newlines are removed: every other character survives, in order. */
  lemma {:induction false} CollapseKeepsText(s: string)
    ensures DropNewlines(CollapseNewlines(s)) == DropNewlines(s)
    decreases |s|
  {
    if s != [] {
      var k := NewlineRun(s);
      if k == 0 {
        CollapseKeepsText(s[1..]);
        DropNewlinesAppend([s[0]], CollapseNewlines(s[1..]));
      } else {
        var p := if k >= 3 then "\n\n" else s[..k];
        CollapseRun(s);
        CollapseKeepsText(s[k..]);
        DropNewlinesAppend(p, CollapseNewlines(s[k..]));
        DropNewlinesAppend(s[..k], s[k..]);
        DropNewlinesOfRun(s, k);
        assert s == s[..k] + s[k..];
      }
    }
  }
}
