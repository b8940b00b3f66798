/** Strings as the application's code uses them: splitting on one character and
    joining, with the semantics of JavaScript's `String.prototype.split` and
    `Array.prototype.join`, ASCII versions of `\s` and `toUpperCase`, and the
    position of the first occurrence of a character, by which the first space of
    a name is specified. */
module Text {
  import opened Wrappers

  /** ASCII version of the regular-expression class `\s`. */
  predicate IsWhitespace(c: char) {
    c == ' ' || c == '\t' || c == '\n' || c == '\r' || c == '\U{000B}' || c == '\U{000C}'
  }

  /** ASCII version of `toUpperCase` on one character. */
  function ToUpper(c: char): (u: char)
    ensures 'a' <= c <= 'z' ==> 'A' <= u <= 'Z' && u as int == c as int - 32
    ensures !('a' <= c <= 'z') ==> u == c
  {
    if 'a' <= c <= 'z' then (c as int - 32) as char else c
  }

  /** The position of the first occurrence of `c` in `s`, as `indexOf` gives it
      (with `None` for `-1`). */
  function IndexOf(s: string, c: char): (r: Option<nat>)
    ensures r.None? <==> c !in s
    ensures r.Some? ==> r.value < |s| && s[r.value] == c && c !in s[..r.value]
  {
    if s == [] then None
    else if s[0] == c then Some(0)
    else match IndexOf(s[1..], c)
      case None => None
      case Some(i) =>
        assert s[1..][..i] == s[1..i + 1];
        Some(i + 1)
  }

  /** A position holding `c` with no `c` before it is what `IndexOf` finds. */
  lemma IndexOfFirst(s: string, c: char, i: nat)
    requires i < |s| && s[i] == c && c !in s[..i]
    ensures IndexOf(s, c) == Some(i)
  {
    var j := IndexOf(s, c).value;
    assert forall k :: 0 <= k < i ==> s[..i][k] == s[k];
    assert forall k :: 0 <= k < j ==> s[..j][k] == s[k];
  }

  /** `s.split(c)`: the pieces between occurrences of `c`; never empty, and
      `"".split(c)` is `[""]`. */
  function Split(s: string, c: char): (parts: seq<string>)
    ensures |parts| >= 1
    ensures forall k :: 0 <= k < |parts| ==> c !in parts[k]
  {
    if s == [] then [""]
    else if s[0] == c then [""] + Split(s[1..], c)
    else
      var rest := Split(s[1..], c);
      [[s[0]] + rest[0]] + rest[1..]
  }

  /** The total number of characters in the pieces. */
  function TotalLength(parts: seq<string>): nat {
    if parts == [] then 0 else |parts[0]| + TotalLength(parts[1..])
  }

  /** `parts.join(sep)`: the pieces with `sep` between neighbours, so the result
      starts with the first piece and holds every character of the pieces plus one
      separator per pair of neighbours; joining no pieces gives the empty string. */
  function Join(parts: seq<string>, sep: string): (joined: string)
    ensures |parts| == 0 ==> joined == ""
    ensures |parts| >= 1 ==>
      |joined| == TotalLength(parts) + (|parts| - 1) * |sep| &&
      parts[0] <= joined
  {
    if |parts| == 0 then ""
    else if |parts| == 1 then
      assert parts[1..] == [];
      parts[0]
    else
      var rest := Join(parts[1..], sep);
      assert (|parts| - 1) * |sep| == |sep| + (|parts| - 2) * |sep|;
      parts[0] + sep + rest
  }

  /** A string without the separator splits into itself alone. */
  lemma {:induction false} SplitWithoutSeparator(s: string, c: char)
    requires c !in s
    ensures Split(s, c) == [s]
  {
    if s != [] {
      assert c !in s[1..];
      SplitWithoutSeparator(s[1..], c);
      assert s == [s[0]] + s[1..];
    }
  }

  /** Splitting stops at the first separator: the first piece is the text before it,
      the rest is the split of the text after it. */
  lemma {:induction false} SplitAtFirst(s: string, c: char)
    requires c in s
    ensures IndexOf(s, c).Some?
    ensures var i := IndexOf(s, c).value;
      Split(s, c) == [s[..i]] + Split(s[i + 1..], c)
  {
    if s[0] != c {
      assert c in s[1..];
      SplitAtFirst(s[1..], c);
      var i := IndexOf(s[1..], c).value;
      assert IndexOf(s, c).value == i + 1;
      assert [s[0]] + s[1..][..i] == s[..i + 1];
      assert s[1..][i + 1..] == s[i + 2..];
    }
  }

  /** Prefixing the first piece prefixes the join. */
  lemma JoinPrefixFirst(x: string, parts: seq<string>, sep: string)
    requires |parts| >= 1
    ensures Join([x + parts[0]] + parts[1..], sep) == x + Join(parts, sep)
  {
    var q := [x + parts[0]] + parts[1..];
    assert q[1..] == parts[1..];
  }

  /** Joining the pieces of a split with the separator restores the string. */
  lemma {:induction false} JoinSplit(s: string, c: char)
    ensures Join(Split(s, c), [c]) == s
  {
    if s == [] {
    } else if s[0] == c {
      var rest := Split(s[1..], c);
      JoinSplit(s[1..], c);
      assert ([""] + rest)[1..] == rest;
      assert Join([""] + rest, [c]) == "" + [c] + Join(rest, [c]);
      assert s == [c] + s[1..];
    } else {
      var rest := Split(s[1..], c);
      JoinSplit(s[1..], c);
      JoinPrefixFirst([s[0]], rest, [c]);
      assert s == [s[0]] + s[1..];
    }
  }

  /** Joining one-character pieces with the empty separator concatenates those characters. */
  lemma {:induction false} JoinSingletons(parts: seq<string>)
    requires forall k :: 0 <= k < |parts| ==> |parts[k]| == 1
    ensures |Join(parts, "")| == |parts|
    ensures forall k :: 0 <= k < |parts| ==> Join(parts, "")[k] == parts[k][0]
  {
    if |parts| > 1 {
      JoinSingletons(parts[1..]);
      assert Join(parts, "") == parts[0] + Join(parts[1..], "");
    }
  }

  /** `s` neither starts nor ends with `c` and never holds `c` twice in a row. */
  predicate NoStrayCharacter(s: string, c: char) {
    s != "" && s[0] != c && s[|s| - 1] != c &&
    forall k :: 0 <= k < |s| - 1 ==> !(s[k] == c && s[k + 1] == c)
  }

  /** The first piece of a split is empty exactly when the string is empty or
      starts with the separator. */
  lemma SplitFirstEmpty(s: string, c: char)
    ensures Split(s, c)[0] == "" <==> s == "" || s[0] == c
  {
  }

  /** A split has no empty piece exactly when the string is non-empty and has no
      leading, trailing or doubled separator. */
  lemma {:induction false} SplitNoEmptyPiece(s: string, c: char)
    ensures "" !in Split(s, c) <==> NoStrayCharacter(s, c)
    decreases |s|
  {
    if s != [] && s[0] != c {
      var t := s[1..];
      var rest := Split(t, c);
      var parts := Split(s, c);
      assert parts == [[s[0]] + rest[0]] + rest[1..];
      assert "" !in parts <==> "" !in rest[1..];
      if t == [] {
        assert rest == [""];
      } else if t[0] == c {
        var after := t[1..];
        assert rest == [""] + Split(after, c);
        assert rest[1..] == Split(after, c);
        SplitNoEmptyPiece(after, c);
        assert after == s[2..];
        if NoStrayCharacter(after, c) {
          forall k | 0 <= k < |s| - 1
            ensures !(s[k] == c && s[k + 1] == c)
          {
            if k >= 2 {
              assert s[k] == after[k - 2] && s[k + 1] == after[k - 1];
            }
          }
        }
        if NoStrayCharacter(s, c) {
          forall k | 0 <= k < |after| - 1
            ensures !(after[k] == c && after[k + 1] == c)
          {
            assert after[k] == s[k + 2] && after[k + 1] == s[k + 3];
          }
          assert !(s[1] == c && s[2] == c);
        }
      } else {
        SplitNoEmptyPiece(t, c);
        SplitFirstEmpty(t, c);
        assert "" !in rest <==> "" !in rest[1..] by {
          assert rest == [rest[0]] + rest[1..];
        }
        if NoStrayCharacter(t, c) {
          forall k | 0 <= k < |s| - 1
            ensures !(s[k] == c && s[k + 1] == c)
          {
            if k >= 1 {
              assert s[k] == t[k - 1] && s[k + 1] == t[k];
            }
          }
        }
        if NoStrayCharacter(s, c) {
          forall k | 0 <= k < |t| - 1
            ensures !(t[k] == c && t[k + 1] == c)
          {
            assert t[k] == s[k + 1] && t[k + 1] == s[k + 2];
          }
        }
      }
    }
  }
}
