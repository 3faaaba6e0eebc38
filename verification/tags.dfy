/**
 * `splitTags` and the `' '.join` that `ankiAddFact` applies to its result:
 * a tag string is split on `;`, `,` and ASCII whitespace (the `\s` of a
 * pattern compiled without the Unicode flag), and pieces that strip to
 * nothing are dropped.
 */
module Tags {
  import opened Text

  predicate IsTagSeparator(c: char) {
    c == ';' || c == ',' || IsAsciiSpace(c)
  }

  predicate NoSeparator(s: string) {
    forall k :: 0 <= k < |s| ==> !IsTagSeparator(s[k])
  }

  /**
   * `re.split('[;,\s]', s)`: the pieces between separators, one more than
   * there are separators, none containing a separator.
   */
  function SplitFields(s: string): (fields: seq<string>)
    ensures |fields| >= 1
    ensures forall k :: 0 <= k < |fields| ==> NoSeparator(fields[k])
    decreases |s|
  {
    if s == [] then [[]]
    else
      var rest := SplitFields(s[1..]);
      if IsTagSeparator(s[0]) then [[]] + rest
      else rest[0 := [s[0]] + rest[0]]
  }

  /** The separator characters of `s`, in order. */
  function Separators(s: string): string
    decreases |s|
  {
    if s == [] then []
    else (if IsTagSeparator(s[0]) then [s[0]] else []) + Separators(s[1..])
  }

  /** The fields with the separators put back between them. */
  function Interleave(fields: seq<string>, seps: string): string
    requires |fields| == |seps| + 1
    decreases |seps|
  {
    if seps == [] then fields[0]
    else fields[0] + [seps[0]] + Interleave(fields[1..], seps[1..])
  }

  /** A character in front of the first field comes out in front of the interleaving. */
  lemma InterleaveConsFirst(c: char, fields: seq<string>, seps: string)
    requires |fields| == |seps| + 1
    ensures Interleave(fields[0 := [c] + fields[0]], seps) == [c] + Interleave(fields, seps)
  {
    if seps != [] {
      var joined := fields[0 := [c] + fields[0]];
      var tail := [seps[0]] + Interleave(fields[1..], seps[1..]);
      assert Interleave(joined, seps) == ([c] + fields[0]) + tail by {
        assert joined[1..] == fields[1..];
      }
    }
  }

  /** Splitting loses nothing: putting the separators back between the fields gives the input. */
  lemma {:induction false} SplitFieldsRoundTrip(s: string)
    ensures |SplitFields(s)| == |Separators(s)| + 1
    ensures Interleave(SplitFields(s), Separators(s)) == s
    decreases |s|
  {
    if s != [] {
      SplitFieldsRoundTrip(s[1..]);
      var rest := SplitFields(s[1..]);
      var seps := Separators(s[1..]);
      assert s == [s[0]] + s[1..];
      if IsTagSeparator(s[0]) {
        assert Separators(s) == [s[0]] + seps;
        assert ([s[0]] + seps)[1..] == seps;
        assert ([[]] + rest)[1..] == rest;
      } else {
        assert Separators(s) == seps;
        InterleaveConsFirst(s[0], rest, seps);
      }
    }
  }

  /** The fields that do not strip to nothing (Python's `filter` with `tag.strip()`). */
  function NonBlank(fields: seq<string>): (kept: seq<string>)
    ensures forall k :: 0 <= k < |kept| ==> kept[k] in fields && !IsBlank(kept[k])
    ensures forall j :: 0 <= j < |fields| && !IsBlank(fields[j]) ==> fields[j] in kept
    decreases |fields|
  {
    if fields == [] then []
    else if IsBlank(fields[0]) then NonBlank(fields[1..])
    else [fields[0]] + NonBlank(fields[1..])
  }

  /** `splitTags`: non-blank tags without separators, in input order. */
  function SplitTags(s: string): (tags: seq<string>)
    ensures forall k :: 0 <= k < |tags| ==> !IsBlank(tags[k]) && NoSeparator(tags[k])
  {
    NonBlank(SplitFields(s))
  }

  /** `' '.join(tags)`. */
  function JoinTags(tags: seq<string>): string
    decreases |tags|
  {
    if tags == [] then []
    else if |tags| == 1 then tags[0]
    else tags[0] + " " + JoinTags(tags[1..])
  }

  lemma {:induction false} SplitFieldsWithoutSeparator(a: string)
    requires NoSeparator(a)
    ensures SplitFields(a) == [a]
    decreases |a|
  {
    if a != [] {
      SplitFieldsWithoutSeparator(a[1..]);
      assert a == [a[0]] + a[1..];
    }
  }

  lemma {:induction false} SplitFieldsAtSeparator(a: string, sep: char, b: string)
    requires NoSeparator(a) && IsTagSeparator(sep)
    ensures SplitFields(a + [sep] + b) == [a] + SplitFields(b)
    decreases |a|
  {
    var s := a + [sep] + b;
    if a == [] {
      assert s[1..] == b;
    } else {
      assert s[1..] == a[1..] + [sep] + b;
      SplitFieldsAtSeparator(a[1..], sep, b);
      assert a == [a[0]] + a[1..];
    }
  }

  /**
   * A separator ends the first tag: the text before it is the first tag
   * unless it is blank, and the tags of the rest follow in order.
   */
  lemma SplitTagsAtSeparator(a: string, sep: char, b: string)
    requires NoSeparator(a) && IsTagSeparator(sep)
    ensures SplitTags(a + [sep] + b) == (if IsBlank(a) then [] else [a]) + SplitTags(b)
  {
    SplitFieldsAtSeparator(a, sep, b);
    assert ([a] + SplitFields(b))[1..] == SplitFields(b);
  }

  /** Text without separators is one tag, or none when it is blank. */
  lemma SplitTagsWithoutSeparator(a: string)
    requires NoSeparator(a)
    ensures SplitTags(a) == if IsBlank(a) then [] else [a]
  {
    SplitFieldsWithoutSeparator(a);
    assert NonBlank([a][1..]) == [];
  }

  lemma {:induction false} SplitFieldsOfJoin(tags: seq<string>)
    requires tags != []
    requires forall k :: 0 <= k < |tags| ==> NoSeparator(tags[k])
    ensures SplitFields(JoinTags(tags)) == tags
    decreases |tags|
  {
    if |tags| == 1 {
      SplitFieldsWithoutSeparator(tags[0]);
    } else {
      SplitFieldsAtSeparator(tags[0], ' ', JoinTags(tags[1..]));
      SplitFieldsOfJoin(tags[1..]);
      assert tags == [tags[0]] + tags[1..];
    }
  }

  lemma {:induction false} NonBlankKeepsAll(fields: seq<string>)
    requires forall k :: 0 <= k < |fields| ==> !IsBlank(fields[k])
    ensures NonBlank(fields) == fields
    decreases |fields|
  {
    if fields != [] {
      NonBlankKeepsAll(fields[1..]);
      assert fields == [fields[0]] + fields[1..];
    }
  }

  /** Joining tags with spaces and splitting again gives the same tags. */
  lemma SplitTagsOfJoin(tags: seq<string>)
    requires forall k :: 0 <= k < |tags| ==> !IsBlank(tags[k]) && NoSeparator(tags[k])
    ensures SplitTags(JoinTags(tags)) == tags
  {
    if tags == [] {
      assert SplitFields([]) == [[]];
      assert IsBlank([]);
    } else {
      SplitFieldsOfJoin(tags);
      NonBlankKeepsAll(tags);
    }
  }

  /** The joined tag string is already normal: splitting it again changes nothing. */
  lemma SplitTagsJoinIdempotent(s: string)
    ensures SplitTags(JoinTags(SplitTags(s))) == SplitTags(s)
  {
    SplitTagsOfJoin(SplitTags(s));
  }

  /** The characters of `s` that are not whitespace, in order. */
  function Visible(s: string): string
    decreases |s|
  {
    if s == [] then [] else (if IsSpace(s[0]) then [] else [s[0]]) + Visible(s[1..])
  }

  /** The characters of `s` that are not tag separators, in order. */
  function WithoutSeparators(s: string): string
    decreases |s|
  {
    if s == [] then [] else (if IsTagSeparator(s[0]) then [] else [s[0]]) + WithoutSeparators(s[1..])
  }

  function Concat(fields: seq<string>): string
    decreases |fields|
  {
    if fields == [] then [] else fields[0] + Concat(fields[1..])
  }

  lemma {:induction false} VisibleAppend(a: string, b: string)
    ensures Visible(a + b) == Visible(a) + Visible(b)
    decreases |a|
  {
    if a == [] {
      assert a + b == b;
    } else {
      assert (a + b)[0] == a[0];
      assert (a + b)[1..] == a[1..] + b;
      VisibleAppend(a[1..], b);
    }
  }

  lemma {:induction false} ConcatSplitFields(s: string)
    ensures Concat(SplitFields(s)) == WithoutSeparators(s)
    decreases |s|
  {
    if s != [] {
      ConcatSplitFields(s[1..]);
      var rest := SplitFields(s[1..]);
      if IsTagSeparator(s[0]) {
        assert ([[]] + rest)[1..] == rest;
      } else {
        assert rest[0 := [s[0]] + rest[0]][1..] == rest[1..];
      }
    }
  }

  lemma {:induction false} VisibleOfNonBlank(fields: seq<string>)
    ensures Visible(Concat(NonBlank(fields))) == Visible(Concat(fields))
    decreases |fields|
  {
    if fields != [] {
      var head, rest := fields[0], fields[1..];
      VisibleOfNonBlank(rest);
      assert Concat(fields) == head + Concat(rest);
      VisibleAppend(head, Concat(rest));
      if IsBlank(head) {
        assert NonBlank(fields) == NonBlank(rest);
        BlankIffAllSpace(head);
        NoVisibleInSpace(head);
      } else {
        var kept := [head] + NonBlank(rest);
        assert NonBlank(fields) == kept;
        assert kept[1..] == NonBlank(rest);
        assert Concat(kept) == head + Concat(NonBlank(rest));
        VisibleAppend(head, Concat(NonBlank(rest)));
      }
    }
  }

  lemma {:induction false} NoVisibleInSpace(s: string)
    requires forall k :: 0 <= k < |s| ==> IsSpace(s[k])
    ensures Visible(s) == []
    decreases |s|
  {
    if s != [] {
      NoVisibleInSpace(s[1..]);
    }
  }

  /**
   * No visible character is lost or reordered: apart from whitespace, the
   * tags hold exactly the characters of the input other than `;` and `,`.
   */
  lemma SplitTagsKeepsVisible(s: string)
    ensures Visible(Concat(SplitTags(s))) == Visible(WithoutSeparators(s))
  {
    VisibleOfNonBlank(SplitFields(s));
    ConcatSplitFields(s);
  }
}
