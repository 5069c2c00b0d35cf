/** Results, options and the string primitives (split, join, prefix) the other modules share. */
module Text {

  datatype Option<+T> = None | Some(value: T)

  /** A gate either lets a value through or refuses with a reason. */
  datatype Result<+T, +E> = Ok(value: T) | Err(error: E) {
    predicate IsFailure() { Err? }
    function PropagateFailure<U>(): (r: Result<U, E>)
      requires Err?
    {
      Err(error)
    }
    function Extract(): T
      requires Ok?
    {
      value
    }
  }

  function Lookup<K, V>(m: map<K, V>, k: K): (r: Option<V>)
    ensures r.Some? <==> k in m
  {
    if k in m then Some(m[k]) else None
  }

  function SetOf<T>(s: seq<T>): set<T> {
    set x | x in s
  }

  /** The characters `trim()` removes. */
  predicate IsWhite(c: char) {
    || c in {' ', '\t', '\n', '\r', '\U{000B}', '\U{000C}', '\U{00A0}', '\U{1680}', '\U{202F}', '\U{205F}', '\U{3000}', '\U{FEFF}'}
    || '\U{2000}' <= c <= '\U{200A}' || '\U{2028}' <= c <= '\U{2029}'
  }

  /** `s.trim() === ""`. */
  predicate IsBlank(s: string) {
    forall i :: 0 <= i < |s| ==> IsWhite(s[i])
  }

  predicate Distinct<T(==)>(s: seq<T>) {
    forall i, j :: 0 <= i < j < |s| ==> s[i] != s[j]
  }

  predicate StartsWith(s: string, prefix: string) {
    |prefix| <= |s| && s[..|prefix|] == prefix
  }

  /** `s.split(c)`: always at least one piece. */
  function Split(s: string, c: char): (r: seq<string>)
    ensures |r| >= 1
  {
    if s == "" then [""]
    else
      var rest := Split(s[1..], c);
      if s[0] == c then [""] + rest else Prepend(s[0], rest)
  }

  /** `x` put in front of the first piece. */
  function Prepend(x: char, pieces: seq<string>): (r: seq<string>)
    requires |pieces| >= 1
    ensures |r| == |pieces| && r[0] == [x] + pieces[0] && r[1..] == pieces[1..]
  {
    [[x] + pieces[0]] + pieces[1..]
  }

  lemma PrependConcat(x: char, p: seq<string>, q: seq<string>)
    requires |p| >= 1
    ensures Prepend(x, p + q) == Prepend(x, p) + q
  {
    assert (p + q)[1..] == p[1..] + q;
  }

  /** `pieces.join(sep)`. */
  function Join(pieces: seq<string>, sep: string): (r: string)
  {
    if |pieces| == 0 then ""
    else if |pieces| == 1 then pieces[0]
    else pieces[0] + sep + Join(pieces[1..], sep)
  }

  lemma {:induction false} PiecesHoldNoSeparator(s: string, c: char)
    ensures forall i :: 0 <= i < |Split(s, c)| ==> c !in Split(s, c)[i]
  {
    if s != "" {
      PiecesHoldNoSeparator(s[1..], c);
    }
  }

  lemma {:induction false} SplitWithout(s: string, c: char)
    requires c !in s
    ensures Split(s, c) == [s]
  {
    if s != "" {
      SplitWithout(s[1..], c);
      assert [s[0]] + s[1..] == s;
    }
  }

  /** A separator cuts a text into the pieces of the two sides. */
  lemma {:induction false} SplitAt(a: string, c: char, b: string)
    ensures Split(a + [c] + b, c) == Split(a, c) + Split(b, c)
  {
    if a == "" {
      assert a + [c] + b == [c] + b;
      assert ([c] + b)[1..] == b;
    } else {
      var x, rest := a[0], a[1..];
      var tail := rest + [c] + b;
      SplitAt(rest, c, b);
      calc {
        Split(a + [c] + b, c);
        { assert a + [c] + b == [x] + tail; }
        Split([x] + tail, c);
        { SplitStep(x, tail, c); }
        if x == c then [""] + (Split(rest, c) + Split(b, c)) else Prepend(x, Split(rest, c) + Split(b, c));
        { PrependConcat(x, Split(rest, c), Split(b, c));
          Assoc([""], Split(rest, c), Split(b, c)); }
        (if x == c then [""] + Split(rest, c) else Prepend(x, Split(rest, c))) + Split(b, c);
      }
    }
  }

  lemma Assoc<T>(a: seq<T>, b: seq<T>, c: seq<T>)
    ensures a + (b + c) == a + b + c
  { }

  lemma SplitStep(x: char, s: string, c: char)
    ensures Split([x] + s, c) == if x == c then [""] + Split(s, c) else Prepend(x, Split(s, c))
  {
    assert ([x] + s)[1..] == s;
  }

  /** Splitting what was joined gives the pieces back when none of them holds the separator. */
  lemma {:induction false} SplitJoin(pieces: seq<string>, c: char)
    requires |pieces| >= 1
    requires forall i :: 0 <= i < |pieces| ==> c !in pieces[i]
    ensures Split(Join(pieces, [c]), c) == pieces
  {
    SplitWithout(pieces[0], c);
    if |pieces| == 1 {
      assert pieces == [pieces[0]];
    } else {
      var rest := pieces[1..];
      SplitJoin(rest, c);
      SplitAt(pieces[0], c, Join(rest, [c]));
      assert pieces == [pieces[0]] + rest;
    }
  }

  /** Joining what was split gives the text back. */
  lemma {:induction false} JoinSplit(s: string, c: char)
    ensures Join(Split(s, c), [c]) == s
  {
    if s != "" {
      var rest := Split(s[1..], c);
      JoinSplit(s[1..], c);
      assert s == [s[0]] + s[1..];
      if s[0] == c {
        assert ([""] + rest)[1..] == rest;
      }
    }
  }
}
