// String helpers shared by the models: Python's `in` on strings, `str.replace`
// (every non-overlapping occurrence, scanned left to right) and
// `str.split(" ")`, with the facts about them the models rely on.

module Text {

  datatype Option<T> = None | Some(value: T)

  predicate StartsWith(s: string, p: string)
  {
    |p| <= |s| && s[..|p|] == p
  }

  /** `p in s` for strings: some position of `s` starts an occurrence of `p`. */
  predicate Contains(s: string, p: string)
    decreases |s|
  {
    StartsWith(s, p) || (|s| > 0 && Contains(s[1..], p))
  }

  /** The window of `s` at `i` spells `p`. */
  predicate OccursAt(s: string, p: string, i: int)
  {
    0 <= i && i + |p| <= |s| && s[i..i + |p|] == p
  }

  /** `Contains` agrees with the textbook definition: some window of `s`
      spells `p`. */
  lemma {:induction false} ContainsAt(s: string, p: string)
    ensures Contains(s, p) <==> exists i :: OccursAt(s, p, i)
    decreases |s|
  {
    if StartsWith(s, p) {
      assert OccursAt(s, p, 0);
    } else {
      if exists i :: OccursAt(s, p, i) {
        var i :| OccursAt(s, p, i);
        assert i != 0;
        assert OccursAt(s[1..], p, i - 1) by {
          assert s[1..][i - 1..i - 1 + |p|] == s[i..i + |p|];
        }
      }
      if |s| > 0 {
        ContainsAt(s[1..], p);
        if Contains(s[1..], p) {
          var i :| OccursAt(s[1..], p, i);
          assert OccursAt(s, p, i + 1) by {
            assert s[1..][i..i + |p|] == s[i + 1..i + 1 + |p|];
          }
        }
      }
    }
  }

  /** A string that contains `p + q` contains `p`. */
  lemma {:induction false} ContainsPrefix(s: string, p: string, q: string)
    requires Contains(s, p + q)
    ensures Contains(s, p)
    decreases |s|
  {
    if StartsWith(s, p + q) {
      assert s[..|p|] == (p + q)[..|p|];
    } else {
      ContainsPrefix(s[1..], p, q);
    }
  }

  /** `s.replace(pat, rep)`: every occurrence of `pat`, found left to right
      without overlap, is replaced by `rep`. */
  function ReplaceAll(s: string, pat: string, rep: string): (r: string)
    requires |pat| > 0
    ensures |rep| == |pat| ==> |r| == |s|
    decreases |s|
  {
    if |s| < |pat| then s
    else if s[..|pat|] == pat then rep + ReplaceAll(s[|pat|..], pat, rep)
    else [s[0]] + ReplaceAll(s[1..], pat, rep)
  }

  /** Every character of the result comes from the input or from the
      replacement; a one-character pattern is gone from the result unless
      the replacement brings it back. */
  lemma {:induction false} ReplacedChars(s: string, pat: string, rep: string)
    requires |pat| > 0
    ensures forall ch :: ch in ReplaceAll(s, pat, rep) ==> ch in s || ch in rep
    ensures |pat| == 1 ==>
      forall ch :: ch in ReplaceAll(s, pat, rep) ==> (ch in s && ch != pat[0]) || ch in rep
    decreases |s|
  {
    if |s| >= |pat| {
      if s[..|pat|] == pat {
        ReplacedChars(s[|pat|..], pat, rep);
      } else {
        ReplacedChars(s[1..], pat, rep);
        assert |pat| == 1 ==> s[..|pat|] == [s[0]];
      }
    } else {
      assert |pat| == 1 ==> s == [];
    }
  }

  /** A string that contains `p` contains every start of `p`. */
  lemma ContainsStart(s: string, p: string, n: nat)
    requires n <= |p| && Contains(s, p)
    ensures Contains(s, p[..n])
  {
    assert p == p[..n] + p[n..];
    ContainsPrefix(s, p[..n], p[n..]);
  }

  /** `s.replace(p1, r1).replace(p2, r2)...`: the replacements one after
      another, in order. */
  function ReplaceEach(s: string, steps: seq<(string, string)>): string
    requires forall k :: 0 <= k < |steps| ==> |steps[k].0| > 0
    decreases |steps|
  {
    if steps == [] then s else ReplaceEach(ReplaceAll(s, steps[0].0, steps[0].1), steps[1..])
  }

  /** Replacing a pattern that does not occur changes nothing. */
  lemma {:induction false} ReplaceAbsent(s: string, pat: string, rep: string)
    requires |pat| > 0 && !Contains(s, pat)
    ensures ReplaceAll(s, pat, rep) == s
    decreases |s|
  {
    if |s| >= |pat| {
      ReplaceAbsent(s[1..], pat, rep);
      assert [s[0]] + s[1..] == s;
    }
  }

  /** No occurrence fits in a shorter string. */
  lemma {:induction false} ContainsNeedsRoom(s: string, p: string)
    requires Contains(s, p)
    ensures |p| <= |s|
    decreases |s|
  {
    if !StartsWith(s, p) {
      ContainsNeedsRoom(s[1..], p);
    }
  }

  predicate NoChar(u: string, c: char)
  {
    forall i :: 0 <= i < |u| ==> u[i] != c
  }

  /** An input starting with `http://` gives an output starting with `h`. */
  lemma UpgradedHead(t: string)
    requires |t| >= 7 && t[..7] == "http://"
    ensures ReplaceAll(t, "http://", "https://")[0] == 'h'
  {
    assert ReplaceAll(t, "http://", "https://") == "https://" + ReplaceAll(t[7..], "http://", "https://");
  }

  /** Every replacement of `http://` by `https://` begins with an `h`, so a
      prefix of the result free of `h` was already a prefix of the input. */
  lemma {:induction false} UpgradePreservesPrefix(t: string, u: string)
    requires NoChar(u, 'h')
    requires StartsWith(ReplaceAll(t, "http://", "https://"), u)
    ensures StartsWith(t, u)
    decreases |t|
  {
    var r := ReplaceAll(t, "http://", "https://");
    if |u| == 0 {
    } else if |t| < 7 {
      assert r == t;
    } else if t[..7] == "http://" {
      UpgradedHead(t);
      assert false;
    } else {
      var rest := ReplaceAll(t[1..], "http://", "https://");
      assert r == [t[0]] + rest;
      assert r[..|u|] == u;
      assert r[1..|u|] == u[1..] by {
        assert r[1..|u|] == r[..|u|][1..];
      }
      assert rest[..|u| - 1] == r[1..|u|];
      UpgradePreservesPrefix(t[1..], u[1..]);
      assert t[..|u|] == [t[0]] + t[1..][..|u| - 1];
    }
  }

  /** After upgrading every `http://` to `https://`, no `http://` is left. */
  lemma {:induction false} UpgradeLeavesNoHttp(s: string)
    ensures !Contains(ReplaceAll(s, "http://", "https://"), "http://")
    decreases |s|
  {
    var r := ReplaceAll(s, "http://", "https://");
    if |s| < 7 {
      if Contains(r, "http://") {
        ContainsNeedsRoom(r, "http://");
      }
    } else if s[..7] == "http://" {
      var rest := ReplaceAll(s[7..], "http://", "https://");
      UpgradeLeavesNoHttp(s[7..]);
      assert r == "https://" + rest;
      HttpsNoHttp(rest);
    } else {
      var rest := ReplaceAll(s[1..], "http://", "https://");
      UpgradeLeavesNoHttp(s[1..]);
      assert r == [s[0]] + rest;
      assert r[1..] == rest;
      if StartsWith(r, "http://") {
        assert rest[..6] == r[1..7] == "ttp://";
        assert s[..7] == [r[0]] + s[1..][..6];
        UpgradePreservesPrefix(s[1..], "ttp://");
        assert false;
      }
    }
  }

  /** No match of `http://` can start inside a leading `https://`. */
  lemma HttpsNoHttp(rest: string)
    requires !Contains(rest, "http://")
    ensures !Contains("https://" + rest, "http://")
  {
    var r := "https://" + rest;
    var k := 0;
    while k < 8
      invariant 0 <= k <= 8
      invariant Contains(r, "http://") ==> Contains(r[k..], "http://")
    {
      if k == 0 {
        assert r[4] != "http://"[4];
      } else {
        assert r[k] != 'h';
      }
      assert !StartsWith(r[k..], "http://");
      assert r[k..][1..] == r[k + 1..];
      k := k + 1;
    }
    assert r[8..] == rest;
  }

  /** `s.split(sep)`: the pieces between separators, empty ones included, so
      there is always at least one piece. */
  function Split(s: string, sep: char): (pieces: seq<string>)
    ensures |pieces| >= 1
    ensures forall k :: 0 <= k < |pieces| ==> NoChar(pieces[k], sep)
    decreases |s|
  {
    if s == [] then [[]]
    else
      var rest := Split(s[1..], sep);
      if s[0] == sep then [[]] + rest
      else [[s[0]] + rest[0]] + rest[1..]
  }

  /** `sep.join(pieces)`. */
  function Join(pieces: seq<string>, sep: char): string
  {
    if pieces == [] then []
    else if |pieces| == 1 then pieces[0]
    else pieces[0] + [sep] + Join(pieces[1..], sep)
  }

  /** Joining separator-free pieces puts a separator in the result exactly
      when there are two pieces or more. */
  lemma JoinHasSeparator(pieces: seq<string>, sep: char)
    requires forall k :: 0 <= k < |pieces| ==> NoChar(pieces[k], sep)
    ensures NoChar(Join(pieces, sep), sep) <==> |pieces| <= 1
  {
    if |pieces| >= 2 {
      assert Join(pieces, sep)[|pieces[0]|] == sep;
    }
  }

  /** Splitting loses nothing: joining the pieces gives the string back, and
      no piece holds the separator. */
  lemma {:induction false} SplitJoin(s: string, sep: char)
    ensures Join(Split(s, sep), sep) == s
    ensures forall k :: 0 <= k < |Split(s, sep)| ==> NoChar(Split(s, sep)[k], sep)
    decreases |s|
  {
    if s != [] {
      var rest := Split(s[1..], sep);
      SplitJoin(s[1..], sep);
      if s[0] == sep {
        assert Split(s, sep) == [[]] + rest;
        assert ([[]] + rest)[1..] == rest;
        assert s == [] + [sep] + s[1..];
      } else {
        var pieces := Split(s, sep);
        assert pieces == [[s[0]] + rest[0]] + rest[1..];
        if |rest| == 1 {
          assert Join(rest, sep) == rest[0];
        } else {
          assert pieces[1..] == rest[1..];
          assert Join(rest, sep) == rest[0] + [sep] + Join(rest[1..], sep);
        }
      }
    }
  }
  /** A string without the separator is a single piece. */
  lemma {:induction false} SplitNoSep(a: string, sep: char)
    requires NoChar(a, sep)
    ensures Split(a, sep) == [a]
    decreases |a|
  {
    if a != [] {
      SplitNoSep(a[1..], sep);
      assert [a[0]] + a[1..] == a;
    }
  }

  /** A piece without the separator, then the separator, then the rest:
      the piece comes first, followed by the pieces of the rest. */
  lemma {:induction false} SplitAfter(a: string, b: string, sep: char)
    requires NoChar(a, sep)
    ensures Split(a + [sep] + b, sep) == [a] + Split(b, sep)
    decreases |a|
  {
    var s := a + [sep] + b;
    if a == [] {
      assert s[1..] == b;
    } else {
      assert s[1..] == a[1..] + [sep] + b;
      SplitAfter(a[1..], b, sep);
      assert [a[0]] + a[1..] == a;
    }
  }

  /** Joining pieces that hold no separator and splitting again gives the
      pieces back. */
  lemma {:induction false} JoinSplit(pieces: seq<string>, sep: char)
    requires |pieces| >= 1
    requires forall k :: 0 <= k < |pieces| ==> NoChar(pieces[k], sep)
    ensures Split(Join(pieces, sep), sep) == pieces
    decreases |pieces|
  {
    if |pieces| == 1 {
      SplitNoSep(pieces[0], sep);
    } else {
      JoinSplit(pieces[1..], sep);
      SplitAfter(pieces[0], Join(pieces[1..], sep), sep);
      assert [pieces[0]] + pieces[1..] == pieces;
    }
  }

  predicate EndsWith(s: string, p: string)
  {
    |p| <= |s| && s[|s| - |p|..] == p
  }

  /** `s.removesuffix(p)`. */
  function RemoveSuffix(s: string, p: string): (r: string)
    ensures EndsWith(s, p) ==> r + p == s
    ensures !EndsWith(s, p) ==> r == s
  {
    if EndsWith(s, p) then s[..|s| - |p|] else s
  }
}
