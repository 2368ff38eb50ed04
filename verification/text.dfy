/** The string operations of Go's standard library that the Sumo Logic field
    formatter relies on: byte-wise string order (`sort.Strings`), joining with a
    separator (`strings.Join`), and, as their partner, splitting a joined string
    back into its parts.

    Strings are `seq<char>`. Go compares strings byte by byte; on well-formed
    UTF-8 that is the order of the code points, which is the order of `char`. */
module Text {

  /** `a` sorts before or equal to `b`: a prefix sorts first, otherwise the
      first differing character decides. */
  predicate LessEq(a: string, b: string)
    decreases |a|
  {
    a == [] || (b != [] && (a[0] < b[0] || (a[0] == b[0] && LessEq(a[1..], b[1..]))))
  }

  lemma {:induction false} LessEqTotal(a: string, b: string)
    ensures LessEq(a, b) || LessEq(b, a)
    decreases |a|
  {
    if a != [] && b != [] && a[0] == b[0] {
      LessEqTotal(a[1..], b[1..]);
    }
  }

  lemma {:induction false} LessEqTransitive(a: string, b: string, c: string)
    requires LessEq(a, b) && LessEq(b, c)
    ensures LessEq(a, c)
    decreases |a|
  {
    if a != [] && a[0] == b[0] && b[0] == c[0] {
      LessEqTransitive(a[1..], b[1..], c[1..]);
    }
  }

  lemma {:induction false} LessEqAntisymmetric(a: string, b: string)
    requires LessEq(a, b) && LessEq(b, a)
    ensures a == b
    decreases |a|
  {
    if a != [] {
      LessEqAntisymmetric(a[1..], b[1..]);
      assert a == [a[0]] + a[1..];
      assert b == [b[0]] + b[1..];
    }
  }

  /** Ascending order, as `sort.Strings` leaves a slice. */
  predicate Sorted(s: seq<string>)
  {
    forall i, j :: 0 <= i < j < |s| ==> LessEq(s[i], s[j])
  }

  function Insert(x: string, s: seq<string>): seq<string>
  {
    if s == [] || LessEq(x, s[0]) then [x] + s else [s[0]] + Insert(x, s[1..])
  }

  /** The result of `sort.Strings`: the strings in ascending order, none lost
      and none added. */
  function SortStrings(s: seq<string>): (r: seq<string>)
    ensures Sorted(r)
    ensures multiset(r) == multiset(s)
  {
    if s == [] then []
    else
      var rest := SortStrings(s[1..]);
      InsertSorted(s[0], rest);
      InsertPermutes(s[0], rest);
      assert s == [s[0]] + s[1..];
      Insert(s[0], rest)
  }

  lemma {:induction false} InsertPermutes(x: string, s: seq<string>)
    ensures multiset(Insert(x, s)) == multiset(s) + multiset{x}
  {
    if s != [] && !LessEq(x, s[0]) {
      InsertPermutes(x, s[1..]);
      assert s == [s[0]] + s[1..];
    }
  }

  lemma {:induction false} InsertSorted(x: string, s: seq<string>)
    requires Sorted(s)
    ensures Sorted(Insert(x, s))
  {
    if s == [] {
    } else if LessEq(x, s[0]) {
      forall j | 0 < j < |s| ensures LessEq(x, s[j]) {
        LessEqTransitive(x, s[0], s[j]);
      }
      assert Sorted([x] + s) by {
        forall i, j | 0 <= i < j < |s| + 1 ensures LessEq(([x] + s)[i], ([x] + s)[j]) {
          if i > 0 {
            assert ([x] + s)[i] == s[i - 1] && ([x] + s)[j] == s[j - 1];
          }
        }
      }
    } else {
      var t := Insert(x, s[1..]);
      InsertSorted(x, s[1..]);
      InsertPermutes(x, s[1..]);
      LessEqTotal(x, s[0]);
      forall j | 0 <= j < |t| ensures LessEq(s[0], t[j]) {
        assert t[j] in multiset(t);
        if t[j] != x {
          assert t[j] in multiset(s[1..]);
          var k :| 0 <= k < |s[1..]| && s[1..][k] == t[j];
          assert s[k + 1] == t[j];
        }
      }
      assert Sorted([s[0]] + t) by {
        forall i, j | 0 <= i < j < |t| + 1 ensures LessEq(([s[0]] + t)[i], ([s[0]] + t)[j]) {
          if i > 0 {
            assert ([s[0]] + t)[i] == t[i - 1] && ([s[0]] + t)[j] == t[j - 1];
          }
        }
      }
    }
  }

  lemma SortedHeadLeast(a: seq<string>, x: string)
    requires Sorted(a) && x in a
    ensures LessEq(a[0], x)
  {
    var i :| 0 <= i < |a| && a[i] == x;
    if i == 0 {
      LessEqTotal(x, x);
    }
  }

  lemma SortedTail(a: seq<string>)
    requires Sorted(a) && a != []
    ensures Sorted(a[1..])
  {
    forall i, j | 0 <= i < j < |a| - 1 ensures LessEq(a[1..][i], a[1..][j]) {
      assert a[1..][i] == a[i + 1] && a[1..][j] == a[j + 1];
    }
  }

  lemma TailsPermute(a: seq<string>, b: seq<string>)
    requires a != [] && b != [] && a[0] == b[0]
    requires multiset(a) == multiset(b)
    ensures multiset(a[1..]) == multiset(b[1..])
  {
    assert a == [a[0]] + a[1..];
    assert b == [b[0]] + b[1..];
    assert multiset(a[1..]) == multiset(a) - multiset{a[0]};
    assert multiset(b[1..]) == multiset(b) - multiset{b[0]};
  }

  /** There is only one sorted arrangement of a multiset of strings, so any
      sorting routine yields what `SortStrings` yields. */
  lemma {:induction false} SortedUnique(a: seq<string>, b: seq<string>)
    requires Sorted(a) && Sorted(b)
    requires multiset(a) == multiset(b)
    ensures a == b
  {
    assert |a| == |multiset(a)| == |multiset(b)| == |b|;
    if a != [] {
      assert a[0] in multiset(b) && b[0] in multiset(a);
      SortedHeadLeast(b, a[0]);
      SortedHeadLeast(a, b[0]);
      LessEqAntisymmetric(a[0], b[0]);
      TailsPermute(a, b);
      SortedTail(a);
      SortedTail(b);
      SortedUnique(a[1..], b[1..]);
      assert a == [a[0]] + a[1..] && b == [b[0]] + b[1..];
    }
  }

  /** The result of `strings.Join(parts, sep)`. */
  function Join(parts: seq<string>, sep: string): string
  {
    if parts == [] then ""
    else if |parts| == 1 then parts[0]
    else parts[0] + sep + Join(parts[1..], sep)
  }

  /** Splits `s` at every occurrence of `sep`, as `strings.Split` does with a
      one-character separator; the empty string gives one empty part. */
  function Split(s: string, sep: char): (parts: seq<string>)
    ensures |parts| > 0
    decreases |s|
  {
    if s == [] then [""]
    else
      var rest := Split(s[1..], sep);
      if s[0] == sep then [""] + rest else [[s[0]] + rest[0]] + rest[1..]
  }

  lemma {:induction false} SplitWithoutSeparator(s: string, sep: char)
    requires sep !in s
    ensures Split(s, sep) == [s]
    decreases |s|
  {
    if s != [] {
      assert sep !in s[1..] by { assert forall k :: 0 <= k < |s[1..]| ==> s[1..][k] == s[k + 1]; }
      SplitWithoutSeparator(s[1..], sep);
      assert s == [s[0]] + s[1..];
    }
  }

  lemma {:induction false} SplitAtFirstSeparator(a: string, sep: char, b: string)
    requires sep !in a
    ensures Split(a + [sep] + b, sep) == [a] + Split(b, sep)
    decreases |a|
  {
    if a != [] {
      assert (a + [sep] + b)[1..] == a[1..] + [sep] + b;
      assert sep !in a[1..] by { assert forall k :: 0 <= k < |a[1..]| ==> a[1..][k] == a[k + 1]; }
      SplitAtFirstSeparator(a[1..], sep, b);
      assert a == [a[0]] + a[1..];
    } else {
      assert a + [sep] + b == [sep] + b;
    }
  }

  function DropLeadingSpace(p: string): string
  {
    if p != [] && p[0] == ' ' then p[1..] else p
  }

  /** The parts of a string made by `Join(parts, ", ")` whose parts contain no
      comma: split at each comma and drop the space that follows it. */
  function Unjoin(s: string): seq<string>
  {
    if s == "" then []
    else
      var pieces := Split(s, ',');
      [pieces[0]] + Unspaced(pieces[1..])
  }

  function Unspaced(pieces: seq<string>): seq<string>
  {
    seq(|pieces|, i requires 0 <= i < |pieces| => DropLeadingSpace(pieces[i]))
  }

  /** Every part after the first, with the space that `", "` leaves in front. */
  function Spaced(parts: seq<string>): seq<string>
  {
    seq(|parts|, i requires 0 <= i < |parts| => " " + parts[i])
  }

  lemma UnspacedSpaced(parts: seq<string>)
    ensures Unspaced(Spaced(parts)) == parts
  {
    forall i | 0 <= i < |parts| ensures Unspaced(Spaced(parts))[i] == parts[i] {
      assert (" " + parts[i])[1..] == parts[i];
    }
  }

  lemma {:induction false} SplitJoined(prefix: string, parts: seq<string>)
    requires parts != []
    requires ',' !in prefix
    requires forall i :: 0 <= i < |parts| ==> ',' !in parts[i]
    ensures Split(prefix + Join(parts, ", "), ',') == [prefix + parts[0]] + Spaced(parts[1..])
    decreases |parts|
  {
    if |parts| == 1 {
      SplitWithoutSeparator(prefix + parts[0], ',');
    } else {
      var rest := parts[1..];
      assert prefix + Join(parts, ", ") == (prefix + parts[0]) + [','] + (" " + Join(rest, ", "));
      SplitAtFirstSeparator(prefix + parts[0], ',', " " + Join(rest, ", "));
      assert forall i :: 0 <= i < |rest| ==> rest[i] == parts[i + 1];
      SplitJoined(" ", rest);
      assert [" " + rest[0]] + Spaced(rest[1..]) == Spaced(rest);
    }
  }

  /** Joining with `", "` loses nothing when no part is empty or holds a comma. */
  lemma {:induction false} UnjoinJoin(parts: seq<string>)
    requires forall i :: 0 <= i < |parts| ==> parts[i] != "" && ',' !in parts[i]
    ensures Unjoin(Join(parts, ", ")) == parts
  {
    if parts != [] {
      var s := Join(parts, ", ");
      assert s != "" by {
        if |parts| > 1 {
          assert s == parts[0] + ", " + Join(parts[1..], ", ");
          assert |s| >= 2;
        }
      }
      var pieces := Split(s, ',');
      assert pieces == [parts[0]] + Spaced(parts[1..]) by {
        assert "" + s == s;
        assert "" + parts[0] == parts[0];
        SplitJoined("", parts);
      }
      assert pieces[1..] == Spaced(parts[1..]);
      UnspacedSpaced(parts[1..]);
      assert Unjoin(s) == [parts[0]] + parts[1..];
      assert parts == [parts[0]] + parts[1..];
    }
  }

  /** How many times `c` occurs in `s`. */
  function Count(s: string, c: char): nat
  {
    if s == [] then 0 else (if s[0] == c then 1 else 0) + Count(s[1..], c)
  }

  lemma {:induction false} CountConcat(a: string, b: string, c: char)
    ensures Count(a + b, c) == Count(a, c) + Count(b, c)
  {
    if a != [] {
      assert (a + b)[1..] == a[1..] + b;
      CountConcat(a[1..], b, c);
    } else {
      assert a + b == b;
    }
  }

  lemma {:induction false} CountAbsent(s: string, c: char)
    ensures Count(s, c) == 0 <==> c !in s
  {
    if s != [] {
      CountAbsent(s[1..], c);
      assert s == [s[0]] + s[1..];
    }
  }
}
