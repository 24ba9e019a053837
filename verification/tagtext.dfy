/** The attribute line of the result dialog: a drink's tags sorted and joined
    with ", ". Strings are ordered as Python orders them, character by
    character on code points, a proper prefix coming first. */
module TagText {

  /** Lexicographic order on strings. */
  predicate LessEq(a: string, b: string)
    decreases |a|
  {
    if a == [] then true
    else if b == [] then false
    else if a[0] != b[0] then a[0] < b[0]
    else LessEq(a[1..], b[1..])
  }

  predicate Less(a: string, b: string) {
    LessEq(a, b) && a != b
  }

  lemma {:induction false} LessEqReflexive(a: string)
    ensures LessEq(a, a)
    decreases |a|
  {
    if a != [] {
      LessEqReflexive(a[1..]);
    }
  }

  lemma {:induction false} LessEqTotal(a: string, b: string)
    ensures LessEq(a, b) || LessEq(b, a)
    decreases |a|
  {
    if a != [] && b != [] && a[0] == b[0] {
      LessEqTotal(a[1..], b[1..]);
    }
  }

  lemma {:induction false} LessEqAntisymmetric(a: string, b: string)
    requires LessEq(a, b) && LessEq(b, a)
    ensures a == b
    decreases |a|
  {
    if a != [] && b != [] {
      LessEqAntisymmetric(a[1..], b[1..]);
      assert a == [a[0]] + a[1..] && b == [b[0]] + b[1..];
    }
  }

  lemma {:induction false} LessEqTransitive(a: string, b: string, c: string)
    requires LessEq(a, b) && LessEq(b, c)
    ensures LessEq(a, c)
    decreases |a|
  {
    if a != [] && b != [] && c != [] && a[0] == b[0] && b[0] == c[0] {
      LessEqTransitive(a[1..], b[1..], c[1..]);
    }
  }

  /** `m` is the least string of `s`. */
  predicate IsLeast(m: string, s: set<string>) {
    m in s && forall y :: y in s ==> LessEq(m, y)
  }

  lemma LeastExists(s: set<string>)
    requires s != {}
    ensures exists m :: IsLeast(m, s)
    decreases |s|
  {
    var x :| x in s;
    if s - {x} == {} {
      assert s == {x};
      LessEqReflexive(x);
      assert IsLeast(x, s);
    } else {
      LeastExists(s - {x});
      var m :| IsLeast(m, s - {x});
      LessEqTotal(m, x);
      if LessEq(m, x) {
        assert IsLeast(m, s);
      } else {
        forall y | y in s ensures LessEq(x, y) {
          if y != x {
            LessEqTransitive(x, m, y);
          } else {
            LessEqReflexive(x);
          }
        }
        assert IsLeast(x, s);
      }
    }
  }

  lemma LeastUnique(s: set<string>)
    ensures forall m, n :: IsLeast(m, s) && IsLeast(n, s) ==> m == n
  {
    forall m, n | IsLeast(m, s) && IsLeast(n, s) ensures m == n {
      LessEqAntisymmetric(m, n);
    }
  }

  /** Every element strictly precedes every later one. */
  predicate StrictlySorted(s: seq<string>) {
    forall i, j :: 0 <= i < j < |s| ==> Less(s[i], s[j])
  }

  /** The elements of a set of strings in ascending order, as Python's
      `sorted` lists them. */
  function SortedSeq(s: set<string>): (r: seq<string>)
    ensures forall t :: t in r <==> t in s
    ensures |r| == |s|
    ensures StrictlySorted(r)
    decreases |s|
  {
    if s == {} then []
    else
      LeastExists(s);
      LeastUnique(s);
      var m :| IsLeast(m, s);
      var rest := SortedSeq(s - {m});
      assert forall t :: t in rest ==> Less(m, t);
      [m] + rest
  }

  /** The head of a non-empty sequence is one of its elements. */
  lemma FirstIsMember(s: seq<string>)
    ensures s != [] ==> s[0] in s
  {
  }

  /** A strictly sorted listing of given elements is unique, so `SortedSeq`
      is the one Python's `sorted` produces. */
  lemma {:induction false} SortedUnique(a: seq<string>, b: seq<string>)
    requires StrictlySorted(a) && StrictlySorted(b)
    requires forall t :: t in a <==> t in b
    ensures a == b
    decreases |a|
  {
    if a == [] {
      FirstIsMember(b);
    } else {
      assert a[0] in a;
      assert b != [];
      assert b[0] in b;
      var k :| 0 <= k < |a| && a[k] == b[0];
      var j :| 0 <= j < |b| && b[j] == a[0];
      if k > 0 && j > 0 {
        assert Less(a[0], b[0]) && Less(b[0], a[0]);
        LessEqAntisymmetric(a[0], b[0]);
        assert false;
      }
      assert a[0] == b[0];
      forall t ensures t in a[1..] <==> t in b[1..] {
        if t in a[1..] {
          var i :| 1 <= i < |a| && a[i] == t;
          assert Less(a[0], a[i]);
          assert t in b;
        }
        if t in b[1..] {
          var i :| 1 <= i < |b| && b[i] == t;
          assert Less(b[0], b[i]);
          assert t in a;
        }
      }
      SortedUnique(a[1..], b[1..]);
      assert a == [a[0]] + a[1..] && b == [b[0]] + b[1..];
    }
  }

  /** The summed lengths of `parts`. */
  function TotalLength(parts: seq<string>): nat {
    if parts == [] then 0 else |parts[0]| + TotalLength(parts[1..])
  }

  /** `sep.join(parts)`: the pieces in order with one separator between each
      neighbouring pair. */
  function Join(parts: seq<string>, sep: string): (r: string)
    ensures parts != [] ==> parts[0] <= r
    ensures |r| == TotalLength(parts) + (if parts == [] then 0 else (|parts| - 1) * |sep|)
  {
    if parts == [] then ""
    else if |parts| == 1 then parts[0]
    else parts[0] + sep + Join(parts[1..], sep)
  }

  /** `s.split(sep)`: the pieces between non-overlapping occurrences of `sep`,
      scanning from the left; an empty string yields one empty piece. */
  function Split(s: string, sep: string): (r: seq<string>)
    requires sep != []
    ensures |r| >= 1
    decreases |s|
  {
    if s == [] then [""]
    else if sep <= s then [""] + Split(s[|sep|..], sep)
    else
      var rest := Split(s[1..], sep);
      [[s[0]] + rest[0]] + rest[1..]
  }

  /** Text free of the separator's first character joins onto the first
      piece that follows it. */
  lemma {:induction false} SplitAfterPlain(x: string, t: string, sep: string)
    requires sep != []
    requires sep[0] !in x
    ensures Split(x + t, sep) == [x + Split(t, sep)[0]] + Split(t, sep)[1..]
    decreases |x|
  {
    if x == [] {
      var r := Split(t, sep);
      assert x + t == t;
      assert x + r[0] == r[0];
      assert r == [r[0]] + r[1..];
    } else {
      assert (x + t)[0] == x[0];
      assert !(sep <= x + t);
      assert (x + t)[1..] == x[1..] + t;
      SplitAfterPlain(x[1..], t, sep);
      assert [x[0]] + (x[1..] + Split(t, sep)[0]) == x + Split(t, sep)[0];
    }
  }

  /** Splitting undoes joining when no piece holds the separator's first
      character. */
  lemma {:induction false} SplitJoin(parts: seq<string>, sep: string)
    requires sep != [] && parts != []
    requires forall p :: p in parts ==> sep[0] !in p
    ensures Split(Join(parts, sep), sep) == parts
    decreases |parts|
  {
    assert parts[0] in parts;
    if |parts| == 1 {
      SplitAfterPlain(parts[0], "", sep);
      assert parts[0] + "" == parts[0];
      assert parts == [parts[0]];
    } else {
      var tail := sep + Join(parts[1..], sep);
      assert Join(parts, sep) == parts[0] + tail;
      SplitAfterPlain(parts[0], tail, sep);
      assert sep <= tail;
      assert tail[|sep|..] == Join(parts[1..], sep);
      assert Split(tail, sep) == [""] + Split(Join(parts[1..], sep), sep);
      forall p | p in parts[1..] ensures sep[0] !in p {
        assert p in parts;
      }
      SplitJoin(parts[1..], sep);
      var pieces := Split(tail, sep);
      assert pieces == [""] + parts[1..];
      assert pieces[0] == "" && pieces[1..] == parts[1..];
      assert parts[0] + pieces[0] == parts[0];
      assert Split(Join(parts, sep), sep) == [parts[0]] + parts[1..];
      assert parts == [parts[0]] + parts[1..];
    }
  }

  /** The separator between tags on the attribute line. */
  const Separator: string := ", "

  /** The attribute line for a set of tags. */
  function AttrsText(attrs: set<string>): (r: string)
    ensures attrs == {} ==> r == ""
    ensures attrs != {} && (forall t :: t in attrs ==> ',' !in t) ==>
              var pieces := Split(r, Separator);
              && StrictlySorted(pieces)
              && |pieces| == |attrs|
              && (forall t :: t in pieces <==> t in attrs)
  {
    SplitSortedTags(attrs);
    Join(SortedSeq(attrs), Separator)
  }

  /** Splitting the joined sorted tags recovers them when no tag holds a
      comma. */
  lemma SplitSortedTags(attrs: set<string>)
    ensures attrs != {} && (forall t :: t in attrs ==> ',' !in t) ==>
              Split(Join(SortedSeq(attrs), Separator), Separator) == SortedSeq(attrs)
  {
    if attrs != {} && (forall t :: t in attrs ==> ',' !in t) {
      SplitJoin(SortedSeq(attrs), Separator);
    }
  }
}
