/** String and list helpers shared by the serialisers and the parser: JavaScript's
    `Array.prototype.join`, `Array.prototype.map` and `String.prototype.split` on a
    single character. */
module Text {

  /** `parts.join(sep)`: the parts in order with `sep` between neighbours. */
  function Join(parts: seq<string>, sep: string): (r: string)
    ensures parts == [] ==> r == ""
    ensures |parts| == 1 ==> r == parts[0]
  {
    if |parts| == 0 then ""
    else if |parts| == 1 then parts[0]
    else Join(parts[..|parts| - 1], sep) + sep + parts[|parts| - 1]
  }

  /** Joining one more part adds the separator and that part at the end. */
  lemma JoinSnoc(parts: seq<string>, sep: string, p: string)
    ensures Join(parts + [p], sep) == if parts == [] then p else Join(parts, sep) + sep + p
  {
    assert (parts + [p])[..|parts|] == parts;
  }

  /** `xs.map(f)`. */
  function MapSeq<A, B>(f: A -> B, xs: seq<A>): (ys: seq<B>)
    ensures |ys| == |xs|
  {
    if xs == [] then [] else MapSeq(f, xs[..|xs| - 1]) + [f(xs[|xs| - 1])]
  }

  /** Entry `i` of the mapped list is `f` of entry `i`. */
  lemma {:induction false} MapSeqAt<A, B>(f: A -> B, xs: seq<A>)
    ensures forall i :: 0 <= i < |xs| ==> MapSeq(f, xs)[i] == f(xs[i])
  {
    if xs != [] {
      MapSeqAt(f, xs[..|xs| - 1]);
    }
  }

  /** Entries of two mapped lists placed one after the other: the first list's
      entries come first, then the second's. */
  lemma MapSeqConcatAt<A, B, C>(f: A -> C, xs: seq<A>, g: B -> C, ys: seq<B>)
    ensures var zs := MapSeq(f, xs) + MapSeq(g, ys);
      && (forall i :: 0 <= i < |xs| ==> zs[i] == f(xs[i]))
      && (forall j :: 0 <= j < |ys| ==> zs[|xs| + j] == g(ys[j]))
  {
    MapSeqAt(f, xs);
    MapSeqAt(g, ys);
  }

  lemma MapSeqSnoc<A, B>(f: A -> B, xs: seq<A>, x: A)
    ensures MapSeq(f, xs + [x]) == MapSeq(f, xs) + [f(x)]
  {
    assert (xs + [x])[..|xs|] == xs;
  }

  lemma EmptyPrefix<A>(xs: seq<A>)
    ensures [] + xs == xs
  {
  }

  /** One step of a loop that pushes `f(xs[i])` for each `i` in turn onto `acc`. */
  lemma MapSeqPush<A, B>(f: A -> B, acc: seq<B>, xs: seq<A>, i: nat, out: seq<B>, y: B)
    requires i < |xs| && out == acc + MapSeq(f, xs[..i]) && y == f(xs[i])
    ensures out + [y] == acc + MapSeq(f, xs[..i + 1])
  {
    assert xs[..i + 1] == xs[..i] + [xs[i]];
    MapSeqSnoc(f, xs[..i], xs[i]);
  }

  /** Number of occurrences of `c` in `s`. */
  function Count(s: string, c: char): nat
  {
    if s == [] then 0 else (if s[0] == c then 1 else 0) + Count(s[1..], c)
  }

  /** `s.split(sep)` for a one-character separator: the maximal pieces of `s`
      between occurrences of `sep`, including empty ones. */
  function Split(s: string, sep: char): (r: seq<string>)
    ensures |r| == Count(s, sep) + 1
    ensures forall i :: 0 <= i < |r| ==> sep !in r[i]
  {
    if s == [] then [""]
    else
      var rest := Split(s[1..], sep);
      if s[0] == sep then [""] + rest
      else [[s[0]] + rest[0]] + rest[1..]
  }

  /** A separator-free piece followed by a separator splits off as the first part. */
  lemma {:induction false} SplitAppend(a: string, sep: char, b: string)
    requires sep !in a
    ensures Split(a + [sep] + b, sep) == [a] + Split(b, sep)
  {
    if a == [] {
      assert a + [sep] + b == [sep] + b;
      assert ([sep] + b)[1..] == b;
    } else {
      assert (a + [sep] + b)[1..] == a[1..] + [sep] + b;
      SplitAppend(a[1..], sep, b);
      assert [a[0]] + a[1..] == a;
    }
  }

  /** Splitting around a separator splits each side on its own: the last piece
      of `a` and the first piece of `b` are not merged. */
  lemma {:induction false} SplitConcat(a: string, sep: char, b: string)
    ensures Split(a + [sep] + b, sep) == Split(a, sep) + Split(b, sep)
  {
    if a == [] {
      assert a + [sep] + b == [sep] + b;
      assert ([sep] + b)[1..] == b;
    } else {
      assert (a + [sep] + b)[1..] == a[1..] + [sep] + b;
      SplitConcat(a[1..], sep, b);
    }
  }

  /** Joining pieces that do not contain a one-character separator and splitting
      the result on that separator gives the pieces back. */
  lemma {:induction false} JoinSplit(parts: seq<string>, sep: char)
    requires parts != [] && forall i :: 0 <= i < |parts| ==> sep !in parts[i]
    ensures Split(Join(parts, [sep]), sep) == parts
  {
    var n := |parts| - 1;
    SplitNone(parts[n], sep);
    if n > 0 {
      JoinSplit(parts[..n], sep);
      SplitConcat(Join(parts[..n], [sep]), sep, parts[n]);
      assert parts[..n] + [parts[n]] == parts;
    }
  }

  /** Splitting a string with no separator gives that string alone. */
  lemma {:induction false} SplitNone(a: string, sep: char)
    requires sep !in a
    ensures Split(a, sep) == [a]
  {
    if a != [] {
      SplitNone(a[1..], sep);
      assert [a[0]] + a[1..] == a;
    }
  }
}
