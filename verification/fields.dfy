/** The metadata fields of the Sumo Logic exporter: an attribute map that is
    compared, tested for emptiness and rendered as one ordered
    `key=value, key=value` string whose keys and values are sanitised so that
    the Sumo Logic receiver can parse them back.

    An attribute is a key and the value's string form (`AsString`); the map is
    a sequence of such pairs, in the order the map's `Range` visits them. */
module SumoFields {
  import opened Text

  type Attribute = (string, string)
  type AttributeMap = seq<Attribute>

  /** Keys that are sent separately (as HTTP headers or resource attributes)
      and never rendered as fields. */
  const SourceCategoryKey: string := "_sourceCategory"
  const SourceHostKey: string := "_sourceHost"
  const SourceNameKey: string := "_sourceName"

  /** A map never holds one key twice. */
  predicate DistinctKeys(attrs: AttributeMap)
  {
    forall i, j :: 0 <= i < j < |attrs| ==> attrs[i].0 != attrs[j].0
  }

  // ---------------------------------------------------------------------------
  // Sanitising a key or value

  /** What one byte of a key or value becomes: the field separator `,` and the
      line break become `_`, the key/value separator `=` becomes `:`. */
  function SanitizeChar(c: char): (r: char)
    ensures r != ',' && r != '=' && r != '\n'
    ensures c != ',' && c != '=' && c != '\n' ==> r == c
  {
    match c
    case ',' => '_'
    case '=' => ':'
    case '\n' => '_'
    case _ => c
  }

  /** A key or value after sanitising. */
  function Sanitized(s: string): string
  {
    if s == [] then [] else [SanitizeChar(s[0])] + Sanitized(s[1..])
  }

  lemma {:induction false} SanitizedPointwise(s: string)
    ensures |Sanitized(s)| == |s|
    ensures forall i :: 0 <= i < |s| ==> Sanitized(s)[i] == SanitizeChar(s[i])
  {
    if s != [] {
      SanitizedPointwise(s[1..]);
    }
  }

  lemma {:induction false} SanitizedClean(s: string)
    ensures ',' !in Sanitized(s) && '=' !in Sanitized(s) && '\n' !in Sanitized(s)
  {
    SanitizedPointwise(s);
  }

  lemma {:induction false} SanitizedIdempotent(s: string)
    ensures Sanitized(Sanitized(s)) == Sanitized(s)
  {
    SanitizedPointwise(s);
    SanitizedPointwise(Sanitized(s));
  }

  /** A key or value that already holds none of the three bytes passes unchanged. */
  lemma {:induction false} SanitizedKeepsClean(s: string)
    requires ',' !in s && '=' !in s && '\n' !in s
    ensures Sanitized(s) == s
  {
    SanitizedPointwise(s);
  }

  /** Rewrites the bytes of a key or value in place. */
  method SanitizeField(fld: array<char>)
    modifies fld
    ensures fld[..] == Sanitized(old(fld[..]))
  {
    ghost var orig := fld[..];
    for i := 0 to fld.Length
      invariant forall k :: 0 <= k < i ==> fld[k] == SanitizeChar(orig[k])
      invariant forall k :: i <= k < fld.Length ==> fld[k] == orig[k]
    {
      match fld[i]
      case ',' => fld[i] := '_';
      case '=' => fld[i] := ':';
      case '\n' => fld[i] := '_';
      case _ =>
    }
    SanitizedPointwise(orig);
  }

  // ---------------------------------------------------------------------------
  // Rendering the fields

  predicate IsSourceKey(k: string)
  {
    k == SourceCategoryKey || k == SourceHostKey || k == SourceNameKey
  }

  /** An attribute that is rendered: not a source key and a non-empty value. */
  predicate Rendered(kv: Attribute)
  {
    !IsSourceKey(kv.0) && kv.1 != ""
  }

  function Entry(kv: Attribute): string
  {
    Sanitized(kv.0) + "=" + Sanitized(kv.1)
  }

  /** What ranging over one attribute adds: its entry, or nothing. */
  function EntryOf(kv: Attribute): seq<string>
  {
    if Rendered(kv) then [Entry(kv)] else []
  }

  /** The entries collected while ranging over the map, in visiting order. */
  function Entries(attrs: AttributeMap): seq<string>
  {
    if attrs == [] then [] else Entries(attrs[..|attrs| - 1]) + EntryOf(attrs[|attrs| - 1])
  }

  /** The fields as one string: the entries sorted and joined with `", "`. */
  function Formatted(attrs: AttributeMap): string
  {
    Join(SortStrings(Entries(attrs)), ", ")
  }

  /** The value the map's raw form gives each key: the keys are exactly those
      of the pairs, and the final pair's value overrides (see `AsMapLastWins`). */
  function AsMap(attrs: AttributeMap): (m: map<string, string>)
    ensures forall i :: 0 <= i < |attrs| ==> attrs[i].0 in m
    ensures forall k :: k in m ==> exists i :: 0 <= i < |attrs| && attrs[i].0 == k
    ensures attrs != [] ==> m[attrs[|attrs| - 1].0] == attrs[|attrs| - 1].1
  {
    if attrs == [] then map[]
    else
      var init, last := attrs[..|attrs| - 1], attrs[|attrs| - 1];
      assert forall i :: 0 <= i < |init| ==> init[i] == attrs[i];
      var m := AsMap(init)[last.0 := last.1];
      assert forall k :: k in m && k != last.0 ==> k in AsMap(init);
      m
  }

  datatype Fields = Fields(orig: AttributeMap)
  {
    /** No attribute at all: the raw map has no key, and the fields render
        as the empty string. */
    function IsEmpty(): (r: bool)
      ensures r <==> AsMap(orig) == map[]
      ensures r ==> Formatted(orig) == ""
    {
      FormattedEmpty(orig);
      |orig| == 0
    }

    /** For maps without repeated keys, `Equals` holds exactly when both hold
        the same key-value pairs; the length test in front of the map
        comparison only short-cuts it. */
    function Equals(other: Fields): (r: bool)
      ensures DistinctKeys(orig) && DistinctKeys(other.orig) ==>
        (r <==> AsMap(orig) == AsMap(other.orig)) && (r <==> multiset(orig) == multiset(other.orig))
    {
      var r := |orig| == |other.orig| && AsMap(orig) == AsMap(other.orig);
      if DistinctKeys(orig) && DistinctKeys(other.orig) then
        SameMapSamePairs(orig, other.orig);
        r
      else
        r
    }

    /** The fields as an ordered `key=value` string with `", "` between entries. */
    method String() returns (s: string)
      ensures s == Formatted(orig)
    {
      var entries: seq<string> := [];
      for i := 0 to |orig|
        invariant entries == Entries(orig[..i])
      {
        assert orig[..i + 1][..i] == orig[..i];
        var (k, v) := orig[i];
        if IsSourceKey(k) {
          // sent separately, as a header or a resource attribute
        } else if v == "" {
          // empty values are skipped
        } else {
          var key := new char[|k|](j requires 0 <= j < |k| => k[j]);
          assert key[..] == k;
          SanitizeField(key);
          var value := new char[|v|](j requires 0 <= j < |v| => v[j]);
          assert value[..] == v;
          SanitizeField(value);
          entries := entries + [key[..] + "=" + value[..]];
        }
      }
      assert orig[..|orig|] == orig;
      s := Join(SortStrings(entries), ", ");
    }
  }

  // ---------------------------------------------------------------------------
  // What a rendered entry looks like

  /** An entry holds exactly one `=`, no `,` and no line break, and is never empty. */
  lemma {:induction false} EntryShape(kv: Attribute)
    ensures Count(Entry(kv), '=') == 1
    ensures ',' !in Entry(kv) && '\n' !in Entry(kv)
    ensures Entry(kv) != ""
  {
    var k, v := Sanitized(kv.0), Sanitized(kv.1);
    SanitizedClean(kv.0);
    SanitizedClean(kv.1);
    CountAbsent(k, '=');
    CountAbsent(v, '=');
    CountConcat(k, "=", '=');
    CountConcat(k + "=", v, '=');
    assert Entry(kv) == k + "=" + v;
    assert Entry(kv)[|k|] == '=';
  }

  /** Every entry comes from a rendered attribute of the map. */
  lemma {:induction false} EntriesSound(attrs: AttributeMap)
    ensures forall e :: e in Entries(attrs) ==>
      exists j :: 0 <= j < |attrs| && Rendered(attrs[j]) && e == Entry(attrs[j])
  {
    if attrs != [] {
      var init := attrs[..|attrs| - 1];
      EntriesSound(init);
      forall e | e in Entries(attrs)
        ensures exists j :: 0 <= j < |attrs| && Rendered(attrs[j]) && e == Entry(attrs[j])
      {
        if e in Entries(init) {
          var j :| 0 <= j < |init| && Rendered(init[j]) && e == Entry(init[j]);
          assert attrs[j] == init[j];
        } else {
          assert Rendered(attrs[|attrs| - 1]) && e == Entry(attrs[|attrs| - 1]);
        }
      }
    }
  }

  /** Every rendered attribute of the map has its entry. */
  lemma {:induction false} EntriesComplete(attrs: AttributeMap)
    ensures forall j :: 0 <= j < |attrs| && Rendered(attrs[j]) ==> Entry(attrs[j]) in Entries(attrs)
  {
    if attrs != [] {
      var init := attrs[..|attrs| - 1];
      EntriesComplete(init);
      forall j | 0 <= j < |attrs| && Rendered(attrs[j]) ensures Entry(attrs[j]) in Entries(attrs) {
        if j < |init| {
          assert attrs[j] == init[j];
        }
      }
    }
  }

  lemma {:induction false} EntriesAppend(a: AttributeMap, b: AttributeMap)
    ensures Entries(a + b) == Entries(a) + Entries(b)
    decreases |b|
  {
    if b == [] {
      assert a + b == a;
    } else {
      var init := b[..|b| - 1];
      assert (a + b)[..|a + b| - 1] == a + init;
      EntriesAppend(a, init);
    }
  }

  lemma {:induction false} EntriesWithout(b: AttributeMap, j: nat)
    requires j < |b|
    ensures multiset(Entries(b)) == multiset(Entries(b[..j] + b[j + 1..])) + multiset(EntryOf(b[j]))
  {
    var x, y := b[..j], b[j + 1..];
    assert b == (x + [b[j]]) + y;
    assert Entries([b[j]]) == EntryOf(b[j]) by {
      assert [b[j]][..0] == [];
    }
    EntriesAppend(x + [b[j]], y);
    EntriesAppend(x, [b[j]]);
    EntriesAppend(x, y);
    assert Entries(b) == Entries(x) + EntryOf(b[j]) + Entries(y);
  }

  /** Reordering the map reorders its entries and nothing else. */
  lemma {:induction false} EntriesPermute(a: AttributeMap, b: AttributeMap)
    requires multiset(a) == multiset(b)
    ensures multiset(Entries(a)) == multiset(Entries(b))
    decreases |a|
  {
    assert |a| == |multiset(a)| == |multiset(b)| == |b|;
    if a != [] {
      var last := a[|a| - 1];
      var init := a[..|a| - 1];
      assert last in multiset(b);
      var j :| 0 <= j < |b| && b[j] == last;
      var rest := b[..j] + b[j + 1..];
      assert multiset(init) == multiset(rest) by {
        assert a == init + [last];
        assert b == b[..j] + [b[j]] + b[j + 1..];
        assert multiset(init) == multiset(a) - multiset{last};
        assert multiset(rest) == multiset(b) - multiset{last};
      }
      EntriesPermute(init, rest);
      EntriesWithout(b, j);
    }
  }

  // ---------------------------------------------------------------------------
  // What the rendered string looks like

  /** The rendered string splits back, at its commas, into the entries in
      ascending order: each entry is `Sanitized(key) + "=" + Sanitized(value)`
      of a rendered attribute, holds exactly one `=`, and every rendered
      attribute has one. */
  lemma {:induction false} FormattedShape(attrs: AttributeMap)
    ensures Unjoin(Formatted(attrs)) == SortStrings(Entries(attrs))
    ensures Sorted(Unjoin(Formatted(attrs)))
    ensures multiset(Unjoin(Formatted(attrs))) == multiset(Entries(attrs))
    ensures forall e :: e in Unjoin(Formatted(attrs)) ==> Count(e, '=') == 1
  {
    var sorted := SortStrings(Entries(attrs));
    EntriesSound(attrs);
    forall i | 0 <= i < |sorted| ensures sorted[i] != "" && ',' !in sorted[i] && Count(sorted[i], '=') == 1 {
      assert sorted[i] in multiset(Entries(attrs));
      assert sorted[i] in Entries(attrs);
      var j :| 0 <= j < |attrs| && Rendered(attrs[j]) && sorted[i] == Entry(attrs[j]);
      EntryShape(attrs[j]);
    }
    UnjoinJoin(sorted);
  }

  /** Some entry is rendered exactly when some attribute is. */
  lemma {:induction false} EntriesEmpty(attrs: AttributeMap)
    ensures Entries(attrs) == [] <==> forall j :: 0 <= j < |attrs| ==> !Rendered(attrs[j])
  {
    EntriesComplete(attrs);
    if Entries(attrs) != [] {
      EntriesSound(attrs);
      assert Entries(attrs)[0] in Entries(attrs);
    }
  }

  /** The string is empty exactly when no attribute is rendered. */
  lemma {:induction false} FormattedEmpty(attrs: AttributeMap)
    ensures Formatted(attrs) == "" <==> forall j :: 0 <= j < |attrs| ==> !Rendered(attrs[j])
  {
    EntriesEmpty(attrs);
    var entries := Entries(attrs);
    var sorted := SortStrings(entries);
    assert |sorted| == |multiset(sorted)| == |multiset(entries)| == |entries|;
    if sorted != [] {
      EntriesSound(attrs);
      assert sorted[0] in multiset(entries);
      assert sorted[0] in entries;
      var j :| 0 <= j < |attrs| && Rendered(attrs[j]) && sorted[0] == Entry(attrs[j]);
      EntryShape(attrs[j]);
      if |sorted| > 1 {
        assert Join(sorted, ", ") == sorted[0] + ", " + Join(sorted[1..], ", ");
      }
      assert Join(sorted, ", ") != "";
    }
  }

  /** The map's visiting order never shows in the string. */
  lemma {:induction false} FormattedOrderFree(a: AttributeMap, b: AttributeMap)
    requires multiset(a) == multiset(b)
    ensures Formatted(a) == Formatted(b)
  {
    EntriesPermute(a, b);
    SortedUnique(SortStrings(Entries(a)), SortStrings(Entries(b)));
  }

  // ---------------------------------------------------------------------------
  // Emptiness and equality

  /** Ranging over the pairs and assigning each one, every key ends up with the
      value of its last pair. */
  lemma {:induction false} AsMapLastWins(attrs: AttributeMap, i: nat)
    requires i < |attrs|
    requires forall j :: i < j < |attrs| ==> attrs[j].0 != attrs[i].0
    ensures AsMap(attrs)[attrs[i].0] == attrs[i].1
  {
    if i < |attrs| - 1 {
      var init := attrs[..|attrs| - 1];
      assert init[i] == attrs[i];
      forall j | i < j < |init| ensures init[j].0 != init[i].0 {
        assert init[j] == attrs[j];
      }
      AsMapLastWins(init, i);
    }
  }

  lemma {:induction false} AsMapHolds(attrs: AttributeMap, k: string, v: string)
    requires DistinctKeys(attrs)
    ensures (k in AsMap(attrs) && AsMap(attrs)[k] == v) <==> (k, v) in attrs
  {
    if attrs != [] {
      var init := attrs[..|attrs| - 1];
      var last := attrs[|attrs| - 1];
      assert attrs == init + [last];
      AsMapHolds(init, k, v);
      forall i | 0 <= i < |init| ensures init[i].0 != last.0 {
        assert init[i] == attrs[i];
      }
    }
  }

  lemma {:induction false} AsMapSize(attrs: AttributeMap)
    requires DistinctKeys(attrs)
    ensures |AsMap(attrs)| == |attrs|
  {
    if attrs != [] {
      var init := attrs[..|attrs| - 1];
      var last := attrs[|attrs| - 1];
      AsMapSize(init);
      forall i | 0 <= i < |init| ensures init[i].0 != last.0 {
        assert init[i] == attrs[i];
      }
    }
  }

  lemma {:induction false} DistinctMultiplicity(attrs: AttributeMap, x: Attribute)
    requires DistinctKeys(attrs)
    ensures multiset(attrs)[x] == if x in attrs then 1 else 0
  {
    if attrs != [] {
      var init := attrs[..|attrs| - 1];
      var last := attrs[|attrs| - 1];
      assert attrs == init + [last];
      DistinctMultiplicity(init, x);
      forall i | 0 <= i < |init| ensures init[i] != last {
        assert init[i] == attrs[i];
      }
    }
  }

  /** Without repeated keys, two maps give the same raw map exactly when they
      hold the same pairs, and then they are equally long. */
  lemma {:induction false} SameMapSamePairs(a: AttributeMap, b: AttributeMap)
    requires DistinctKeys(a) && DistinctKeys(b)
    ensures AsMap(a) == AsMap(b) <==> multiset(a) == multiset(b)
    ensures AsMap(a) == AsMap(b) ==> |a| == |b|
  {
    AsMapSize(a);
    AsMapSize(b);
    if AsMap(a) == AsMap(b) {
      forall x ensures multiset(a)[x] == multiset(b)[x] {
        DistinctMultiplicity(a, x);
        DistinctMultiplicity(b, x);
        AsMapHolds(a, x.0, x.1);
        AsMapHolds(b, x.0, x.1);
      }
    }
    if multiset(a) == multiset(b) {
      forall k | k in AsMap(a) ensures k in AsMap(b) && AsMap(b)[k] == AsMap(a)[k] {
        AsMapHolds(a, k, AsMap(a)[k]);
        assert (k, AsMap(a)[k]) in multiset(b);
        AsMapHolds(b, k, AsMap(a)[k]);
      }
      forall k | k in AsMap(b) ensures k in AsMap(a) {
        AsMapHolds(b, k, AsMap(b)[k]);
        assert (k, AsMap(b)[k]) in multiset(a);
        AsMapHolds(a, k, AsMap(b)[k]);
      }
    }
  }

  /** Equal fields render as the same string. */
  lemma {:induction false} EqualsFormatsAlike(f: Fields, g: Fields)
    requires DistinctKeys(f.orig) && DistinctKeys(g.orig)
    requires f.Equals(g)
    ensures Formatted(f.orig) == Formatted(g.orig)
  {
    FormattedOrderFree(f.orig, g.orig);
  }
}
