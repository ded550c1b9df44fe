/** String operations the core relies on, restated over `seq<char>`:
    JavaScript's `split(' ')`, the truthiness of an optional string field,
    and the ASCII case-insensitive substring test that stands for SQL
    `ILIKE '%term%'`. */
module Text {
  import opened Wrappers

  const Space: char := ' '

  /** JavaScript truthiness of a request field that is a string or absent:
      `undefined` and `""` are falsy, every other string is truthy. */
  predicate Truthy(field: Option<string>) {
    field.Some? && field.value != ""
  }

  /** `s.split(' ')`: the pieces between single spaces, empty pieces kept;
      there is always one piece more than there are spaces. */
  function Split(s: string): (pieces: seq<string>)
    ensures |pieces| >= 1
    ensures forall i :: 0 <= i < |pieces| ==> Space !in pieces[i]
    ensures |pieces| == 1 <==> Space !in s
  {
    if |s| == 0 then [""]
    else
      var rest := Split(s[1..]);
      if s[0] == Space then [""] + rest
      else [[s[0]] + rest[0]] + rest[1..]
  }

  /** `pieces.join(' ')`, the inverse of `Split`. */
  function Join(pieces: seq<string>): string
    requires |pieces| >= 1
  {
    if |pieces| == 1 then pieces[0] else pieces[0] + [Space] + Join(pieces[1..])
  }

  /** Joining the pieces of a split gives back the original string. */
  lemma {:induction false} JoinSplit(s: string)
    ensures Join(Split(s)) == s
  {
    if |s| == 0 {
    } else {
      JoinSplit(s[1..]);
      var rest := Split(s[1..]);
      if s[0] == Space {
        assert Split(s) == [""] + rest;
      } else {
        var ps := [[s[0]] + rest[0]] + rest[1..];
        assert Split(s) == ps;
        if |rest| == 1 {
          assert Join(ps) == [s[0]] + rest[0];
        } else {
          assert ps[1..] == rest[1..];
          assert Join(ps) == [s[0]] + rest[0] + [Space] + Join(rest[1..]);
          assert Join(rest) == rest[0] + [Space] + Join(rest[1..]);
        }
        assert s == [s[0]] + s[1..];
      }
    }
  }

  /** A word followed by a space and a tail splits into the word and the
      pieces of the tail. */
  lemma {:induction false} SplitWordThenSpace(w: string, t: string)
    requires Space !in w
    ensures Split(w + [Space] + t) == [w] + Split(t)
  {
    if |w| == 0 {
      assert w + [Space] + t == [Space] + t;
      assert ([Space] + t)[1..] == t;
    } else {
      var s := w + [Space] + t;
      assert s[0] == w[0];
      assert s[1..] == w[1..] + [Space] + t;
      SplitWordThenSpace(w[1..], t);
      assert w == [w[0]] + w[1..];
    }
  }

  /** Splitting the join of space-free pieces gives back the pieces. */
  lemma {:induction false} SplitJoin(pieces: seq<string>)
    requires |pieces| >= 1
    requires forall i :: 0 <= i < |pieces| ==> Space !in pieces[i]
    ensures Split(Join(pieces)) == pieces
  {
    if |pieces| == 1 {
      SplitNoSpace(pieces[0]);
    } else {
      SplitJoin(pieces[1..]);
      SplitWordThenSpace(pieces[0], Join(pieces[1..]));
      assert pieces == [pieces[0]] + pieces[1..];
    }
  }

  /** A string without spaces is its own single piece. */
  lemma {:induction false} SplitNoSpace(s: string)
    requires Space !in s
    ensures Split(s) == [s]
  {
    if |s| > 0 {
      SplitNoSpace(s[1..]);
      assert s == [s[0]] + s[1..];
    }
  }

  /** ASCII lower-casing of one character. */
  function LowerChar(c: char): char {
    if 'A' <= c <= 'Z' then (c as int + 32) as char else c
  }

  /** ASCII lower-casing of a string, character by character. */
  function Lower(s: string): (r: string)
    ensures |r| == |s|
    ensures forall i :: 0 <= i < |s| ==> r[i] == LowerChar(s[i])
  {
    seq(|s|, i requires 0 <= i < |s| => LowerChar(s[i]))
  }

  /** `sub` occurs in `s` starting at position `i`. */
  ghost predicate OccursAt(sub: string, s: string, i: int) {
    0 <= i <= |s| - |sub| && s[i..i + |sub|] == sub
  }

  /** `sub` occurs in `s` at some position. */
  ghost predicate OccursIn(sub: string, s: string) {
    exists i :: OccursAt(sub, s, i)
  }

  /** Substring test by scanning `s` from the left. */
  function Contains(s: string, sub: string): (b: bool)
    ensures b <==> OccursIn(sub, s)
    decreases |s|
  {
    if |sub| > |s| then false
    else if sub <= s then
      assert OccursAt(sub, s, 0);
      true
    else
      ContainsStep(s, sub);
      Contains(s[1..], sub)
  }

  /** When `sub` is not a prefix of `s`, it occurs in `s` exactly when it
      occurs in `s` without its first character. */
  lemma ContainsStep(s: string, sub: string)
    requires |sub| <= |s|
    requires !(sub <= s)
    ensures OccursIn(sub, s) <==> OccursIn(sub, s[1..])
  {
    if OccursIn(sub, s) {
      var i :| OccursAt(sub, s, i);
      assert i != 0;
      assert s[1..][i - 1..i - 1 + |sub|] == sub;
      assert OccursAt(sub, s[1..], i - 1);
    }
    if OccursIn(sub, s[1..]) {
      var i :| OccursAt(sub, s[1..], i);
      assert s[i + 1..i + 1 + |sub|] == sub;
      assert OccursAt(sub, s, i + 1);
    }
  }

  /** SQL `field ILIKE '%term%'` with `term` taken literally: `term` occurs
      in `field` once both are lower-cased. */
  function ContainsIgnoringCase(field: string, term: string): (b: bool)
    ensures b <==> OccursIn(Lower(term), Lower(field))
  {
    Contains(Lower(field), Lower(term))
  }
}
