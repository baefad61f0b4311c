/** The capability token: the store key and the text of the decryption key,
    joined by `format!("{}::{}", id, keyencoded)` and taken apart again by
    `id.split("::").collect::<Vec<&str>>()` (src/app.rs:173, src/app.rs:184,
    src/app/getsecret.rs:99). */
module Token {

  const Separator: string := "::"

  /** `format!("{}::{}", id, keyText)`. */
  function Make(id: string, keyText: string): (token: string)
    ensures |token| == |id| + 2 + |keyText|
    ensures token[..|id|] == id && SeparatorAt(token, |id|) && token[|id| + 2..] == keyText
  {
    id + Separator + keyText
  }

  /** Whether `"::"` starts at position `i` of `s`. */
  predicate SeparatorAt(s: string, i: int) {
    0 <= i && i + 1 < |s| && s[i] == ':' && s[i + 1] == ':'
  }

  predicate HasSeparator(s: string) {
    exists i :: 0 <= i < |s| && SeparatorAt(s, i)
  }

  /** `str::split("::")`: the pieces between the occurrences of the separator,
      found from the left without overlapping. */
  function Split(s: string): (pieces: seq<string>)
    ensures |pieces| >= 1
    decreases |s|
  {
    if |s| < 2 then [s]
    else if SeparatorAt(s, 0) then [""] + Split(s[2..])
    else
      var rest := Split(s[1..]);
      [[s[0]] + rest[0]] + rest[1..]
  }

  /** The pieces put back together with the separator between them. */
  function Join(pieces: seq<string>): (s: string)
    requires |pieces| >= 1
    ensures |pieces| == 1 ==> s == pieces[0]
  {
    if |pieces| == 1 then pieces[0] else pieces[0] + Separator + Join(pieces[1..])
  }

  // ---------------------------------------------------------------------------

  /** Splitting loses nothing: the pieces joined again give the input back. */
  lemma {:induction false} JoinSplit(s: string)
    ensures Join(Split(s)) == s
    decreases |s|
  {
    if |s| >= 2 {
      if SeparatorAt(s, 0) {
        JoinSplit(s[2..]);
        assert Split(s)[1..] == Split(s[2..]);
        assert s == "" + Separator + s[2..];
      } else {
        var rest := Split(s[1..]);
        JoinSplit(s[1..]);
        var pieces := Split(s);
        assert pieces[0] == [s[0]] + rest[0] && pieces[1..] == rest[1..];
        if |rest| == 1 {
          assert Join(pieces) == [s[0]] + rest[0];
        } else {
          assert Join(rest) == rest[0] + Separator + Join(rest[1..]);
          assert Join(pieces) == ([s[0]] + rest[0]) + Separator + Join(rest[1..]);
        }
        assert s == [s[0]] + s[1..];
      }
    }
  }

  /** The separator is found leftmost first: no `::` starts inside the first
      piece, and when there is a second piece, a `::` starts right after the
      first and the remaining pieces are the split of what follows it. So
      `":::"` splits as `["", ":"]` and `"id:::k"` as `["id", ":k"]`. */
  lemma {:induction false} SplitLeftmost(s: string)
    ensures var p := Split(s)[0];
      |p| <= |s| && (forall i :: 0 <= i < |p| ==> !SeparatorAt(s, i)) &&
      (|Split(s)| == 1 ==> p == s) &&
      (|Split(s)| > 1 ==> SeparatorAt(s, |p|) && Split(s)[1..] == Split(s[|p| + 2..]))
    decreases |s|
  {
    if |s| >= 2 && !SeparatorAt(s, 0) {
      var rest := Split(s[1..]);
      SplitLeftmost(s[1..]);
      var p := [s[0]] + rest[0];
      assert Split(s) == [p] + rest[1..];
      forall i | 0 <= i < |p|
        ensures !SeparatorAt(s, i)
      {
        if i > 0 {
          assert SeparatorAt(s, i) == SeparatorAt(s[1..], i - 1);
        }
      }
      if |rest| == 1 {
        assert s == [s[0]] + s[1..];
      } else {
        assert SeparatorAt(s, |p|) == SeparatorAt(s[1..], |rest[0]|);
        assert s[1..][|rest[0]| + 2..] == s[|p| + 2..];
      }
    }
  }

  /** No piece contains the separator, and the first piece is a prefix of the
      text: every occurrence is cut, the leftmost first. */
  lemma {:induction false} SplitPiecesHaveNoSeparator(s: string)
    ensures forall k :: 0 <= k < |Split(s)| ==> !HasSeparator(Split(s)[k])
    ensures Split(s)[0] <= s
    decreases |s|
  {
    var p := Split(s);
    if |s| < 2 {
      assert p == [s];
      forall i | 0 <= i < |s|
        ensures !SeparatorAt(s, i)
      {
      }
    } else if SeparatorAt(s, 0) {
      SplitPiecesHaveNoSeparator(s[2..]);
      assert p == [""] + Split(s[2..]);
      forall k | 0 <= k < |p|
        ensures !HasSeparator(p[k])
      {
        if k > 0 {
          assert p[k] == Split(s[2..])[k - 1];
        }
      }
    } else {
      var rest := Split(s[1..]);
      SplitPiecesHaveNoSeparator(s[1..]);
      var first := [s[0]] + rest[0];
      assert p == [first] + rest[1..];
      forall i | 0 <= i < |first|
        ensures !SeparatorAt(first, i)
      {
        if i == 0 {
          if |first| >= 2 {
            assert first[1] == rest[0][0] == s[1];
          }
        } else {
          assert SeparatorAt(first, i) == SeparatorAt(rest[0], i - 1);
        }
      }
      forall k | 0 <= k < |p|
        ensures !HasSeparator(p[k])
      {
        if k > 0 {
          assert p[k] == rest[k];
        }
      }
      assert s == [s[0]] + s[1..];
    }
  }

  /** A text without the separator is its own only piece, and conversely. */
  lemma {:induction false} SplitSingle(s: string)
    ensures |Split(s)| == 1 <==> !HasSeparator(s)
    ensures !HasSeparator(s) ==> Split(s) == [s]
    decreases |s|
  {
    if |s| >= 2 {
      if SeparatorAt(s, 0) {
      } else {
        SplitSingle(s[1..]);
        if HasSeparator(s) {
          var i :| 0 <= i < |s| && SeparatorAt(s, i);
          assert SeparatorAt(s[1..], i - 1);
        }
        if HasSeparator(s[1..]) {
          var i :| 0 <= i < |s| - 1 && SeparatorAt(s[1..], i);
          assert SeparatorAt(s, i + 1);
        }
        assert s == [s[0]] + s[1..];
      }
    }
  }

  /** A prefix free of `:` is cut off as the first piece, and what follows the
      separator is split on its own. */
  lemma {:induction false} SplitAfterPrefix(id: string, rest: string)
    requires ':' !in id
    ensures Split(Make(id, rest)) == [id] + Split(rest)
    decreases |id|
  {
    var s := Make(id, rest);
    if id == [] {
      assert SeparatorAt(s, 0);
      assert s[2..] == rest;
    } else {
      assert !SeparatorAt(s, 0);
      assert s[1..] == Make(id[1..], rest);
      SplitAfterPrefix(id[1..], rest);
      assert [id[0]] + id[1..] == id;
    }
  }

  /** The token round trip: when neither part contains `:`, splitting the token
      yields exactly the store key and the key text. */
  lemma SplitMake(id: string, keyText: string)
    requires ':' !in id && ':' !in keyText
    ensures Split(Make(id, keyText)) == [id, keyText]
  {
    SplitAfterPrefix(id, keyText);
    SplitSingle(keyText);
  }
}
