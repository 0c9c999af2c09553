/** The Python `str` operations the formatter is built from, with their Python meaning:
    `str.split(sep)` with an explicit separator and `str.rstrip()`, together with `str.isspace`,
    which `rstrip` relies on. `str.count(sep)` and `sep.join(fields)` are not called by the
    formatter; they are here to state what `split` does. Strings are sequences of Unicode scalar
    values. */
module PyStr {

  /** `c.isspace()`: the characters Python 3 classes as whitespace (bidirectional class
      WS, B or S, or general category Zs). The Braille blank cell U+2800 is not one of them. */
  function IsSpace(c: char): (b: bool)
    ensures c == ' ' || c == '\t' || c == '\n' || c == '\r' ==> b
    ensures '\U{2800}' <= c <= '\U{28ff}' ==> !b
  {
    ('\t' <= c <= '\r') || ('\U{1c}' <= c <= ' ') || c == '\U{85}' || c == '\U{a0}'
    || c == '\U{1680}' || ('\U{2000}' <= c <= '\U{200a}') || c == '\U{2028}' || c == '\U{2029}'
    || c == '\U{202f}' || c == '\U{205f}' || c == '\U{3000}'
  }

  /** `s.rstrip()`: removes the longest whitespace suffix, and nothing else. */
  function RStrip(s: string): (r: string)
    ensures r <= s
    ensures forall i :: |r| <= i < |s| ==> IsSpace(s[i])
    ensures r == [] || !IsSpace(r[|r| - 1])
    decreases |s|
  {
    if s == [] || !IsSpace(s[|s| - 1]) then s else RStrip(s[..|s| - 1])
  }

  /** `s.split(sep)` with an explicit, non-empty separator: cut at the leftmost occurrence,
      resume after it; empty fields are kept and there is always at least one field. */
  function Split(s: string, sep: string): (fields: seq<string>)
    requires sep != []
    ensures |fields| >= 1
    decreases |s|
  {
    if |s| < |sep| then [s]
    else if s[..|sep|] == sep then [[]] + Split(s[|sep|..], sep)
    else
      var rest := Split(s[1..], sep);
      [[s[0]] + rest[0]] + rest[1..]
  }

  /** `s.count(sep)`: the number of non-overlapping occurrences of `sep`, found left to right. */
  function Count(s: string, sep: string): nat
    requires sep != []
    decreases |s|
  {
    if |s| < |sep| then 0
    else if s[..|sep|] == sep then 1 + Count(s[|sep|..], sep)
    else Count(s[1..], sep)
  }

  /** `sep.join(fields)`. */
  function Join(fields: seq<string>, sep: string): string
  {
    if |fields| == 0 then []
    else if |fields| == 1 then fields[0]
    else fields[0] + sep + Join(fields[1..], sep)
  }

  /** `str.split` yields one more field than there are separators. */
  lemma {:induction false} SplitCount(s: string, sep: string)
    requires sep != []
    ensures |Split(s, sep)| == Count(s, sep) + 1
    decreases |s|
  {
    if |s| < |sep| {
    } else if s[..|sep|] == sep {
      SplitCount(s[|sep|..], sep);
    } else {
      SplitCount(s[1..], sep);
    }
  }

  /** For a one-character separator, `str.count` is the number of times that character occurs. */
  lemma {:induction false} CountChar(s: string, c: char)
    ensures Count(s, [c]) == multiset(s)[c]
    decreases |s|
  {
    if s != [] {
      CountChar(s[1..], c);
      assert s == [s[0]] + s[1..];
      assert multiset(s) == multiset([s[0]]) + multiset(s[1..]);
    }
  }

  /** Joining the fields of a split with the same separator gives back the string. */
  lemma {:induction false} JoinSplit(s: string, sep: string)
    requires sep != []
    ensures Join(Split(s, sep), sep) == s
    decreases |s|
  {
    if |s| < |sep| {
    } else if s[..|sep|] == sep {
      var rest := Split(s[|sep|..], sep);
      JoinSplit(s[|sep|..], sep);
      JoinEmptyHead(rest, sep);
      assert s == s[..|sep|] + s[|sep|..];
    } else {
      var rest := Split(s[1..], sep);
      JoinSplit(s[1..], sep);
      JoinExtendHead([s[0]], rest, sep);
      assert s == [s[0]] + s[1..];
    }
  }

  /** An empty first field contributes only the separator. */
  lemma JoinEmptyHead(fields: seq<string>, sep: string)
    requires |fields| >= 1
    ensures Join([[]] + fields, sep) == sep + Join(fields, sep)
  {
    assert ([[]] + fields)[1..] == fields;
  }

  /** Extending the first field extends the join at its front. */
  lemma JoinExtendHead(x: string, fields: seq<string>, sep: string)
    requires |fields| >= 1
    ensures Join([x + fields[0]] + fields[1..], sep) == x + Join(fields, sep)
  {
    var ext := [x + fields[0]] + fields[1..];
    if |fields| > 1 {
      assert ext[1..] == fields[1..];
    }
  }

  /** A field of a split on one character never contains that character. */
  lemma {:induction false} SplitFieldsFree(s: string, c: char)
    ensures forall f :: f in Split(s, [c]) ==> c !in f
    decreases |s|
  {
    if s != [] {
      SplitFieldsFree(s[1..], c);
      var rest := Split(s[1..], [c]);
      if s[..1] != [c] {
        assert s[0] != c;
        forall f | f in [[s[0]] + rest[0]] + rest[1..] ensures c !in f {
          if f != [s[0]] + rest[0] {
            assert f in rest;
          } else {
            assert rest[0] in rest;
          }
        }
      }
    }
  }

  /** Splitting a string with no separator character in it yields that string alone. */
  lemma {:induction false} SplitWhole(a: string, c: char)
    requires c !in a
    ensures Split(a, [c]) == [a]
    decreases |a|
  {
    if a != [] {
      assert a[..1] == [a[0]];
      SplitWhole(a[1..], c);
      assert [a[0]] + a[1..] == a;
    }
  }

  /** The first separator character ends the first field. */
  lemma {:induction false} SplitAtFirst(a: string, c: char, b: string)
    requires c !in a
    ensures Split(a + [c] + b, [c]) == [a] + Split(b, [c])
    decreases |a|
  {
    var s := a + [c] + b;
    if a == [] {
      assert s[..1] == [c];
      assert s[1..] == b;
    } else {
      assert s[..1] == [a[0]];
      assert s[1..] == a[1..] + [c] + b;
      SplitAtFirst(a[1..], c, b);
      assert [a[0]] + a[1..] == a;
    }
  }

  /** For a one-character separator, split undoes join (fields free of the separator). */
  lemma {:induction false} SplitJoin(fields: seq<string>, c: char)
    requires |fields| >= 1
    requires forall f :: f in fields ==> c !in f
    ensures Split(Join(fields, [c]), [c]) == fields
    decreases |fields|
  {
    if |fields| == 1 {
      SplitWhole(fields[0], c);
    } else {
      assert fields[0] in fields;
      assert forall f :: f in fields[1..] ==> f in fields;
      SplitJoin(fields[1..], c);
      SplitAtFirst(fields[0], c, Join(fields[1..], [c]));
      assert [fields[0]] + fields[1..] == fields;
    }
  }

  /** Joining two non-empty runs of fields puts one separator between their joins. */
  lemma {:induction false} JoinAppend(xs: seq<string>, ys: seq<string>, sep: string)
    requires |xs| >= 1 && |ys| >= 1
    ensures Join(xs + ys, sep) == Join(xs, sep) + sep + Join(ys, sep)
    decreases |xs|
  {
    if |xs| == 1 {
      assert (xs + ys)[1..] == ys;
    } else {
      assert (xs + ys)[1..] == xs[1..] + ys;
      JoinAppend(xs[1..], ys, sep);
    }
  }

  /** The join of a contiguous run of fields is a substring of the join of all of them. */
  lemma JoinRunInfix(fields: seq<string>, j: nat, k: nat, sep: string)
    requires j < k <= |fields|
    ensures exists a: nat, b: nat :: a <= b <= |Join(fields, sep)| && Join(fields, sep)[a..b] == Join(fields[j..k], sep)
  {
    var mid := Join(fields[j..k], sep);
    var left := if j > 0 then Join(fields[..j], sep) + sep else [];
    var right := if k < |fields| then sep + Join(fields[k..], sep) else [];
    assert Join(fields[..k], sep) == left + mid by {
      if j > 0 {
        JoinAppend(fields[..j], fields[j..k], sep);
        assert fields[..j] + fields[j..k] == fields[..k];
      } else {
        assert fields[j..k] == fields[..k];
      }
    }
    assert Join(fields, sep) == left + mid + right by {
      if k < |fields| {
        JoinAppend(fields[..k], fields[k..], sep);
        assert fields[..k] + fields[k..] == fields;
      } else {
        assert fields[..k] == fields;
      }
    }
    var a := |left|;
    var b := a + |mid|;
    assert (left + mid + right)[a..b] == mid;
  }
}
