/** String helpers with the semantics of the Python built-ins the pipeline
    relies on: `str.lower`, `str.split` on a one-character delimiter and
    `str.join`. */
module Text {
  import opened Seqs

  /** The Kelvin sign, the one non-ASCII character whose Python lower-case
      form is an ASCII letter (`'k'`). */
  const Kelvin: char := '\U{212A}'

  /** Lower-cases one character: ASCII capitals and the Kelvin sign map to
      ASCII lower case; every other character is kept. Non-ASCII letters are
      not folded, which is exact for every comparison this model makes,
      since each compares the lower-cased text with an ASCII literal and no
      other non-ASCII character lower-cases to ASCII text. */
  function LowerChar(c: char): char {
    if 'A' <= c <= 'Z' then (c as int + 32) as char
    else if c == Kelvin then 'k'
    else c
  }

  /** `s.lower()`, character by character. */
  function Lower(s: string): string {
    seq(|s|, i requires 0 <= i < |s| => LowerChar(s[i]))
  }

  /** The characters `c` that lower-case to the ASCII character `d`. */
  predicate LowersTo(c: char, d: char) {
    || c == d
    || ('a' <= d <= 'z' && c as int == d as int - 32)
    || (d == 'k' && c == Kelvin)
  }

  /** An ASCII text with no capital letters: the shape of every literal the
      pipeline compares lower-cased text with. */
  predicate IsLowerAscii(w: string) {
    forall i :: 0 <= i < |w| ==> w[i] < 128 as char && !('A' <= w[i] <= 'Z')
  }

  /** Case-insensitive matching, stated without `Lower`: a text lower-cases
      to an ASCII literal exactly when it has the literal's length and each of
      its characters is an upper- or lower-case form of the literal's. */
  lemma LowerEqualsLiteral(s: string, w: string)
    requires IsLowerAscii(w)
    ensures Lower(s) == w <==> |s| == |w| && forall i :: 0 <= i < |s| ==> LowersTo(s[i], w[i])
  {
    if |s| == |w| {
      forall i | 0 <= i < |s|
        ensures LowerChar(s[i]) == w[i] <==> LowersTo(s[i], w[i])
      {
        assert w[i] < 128 as char && !('A' <= w[i] <= 'Z');
      }
      if forall i :: 0 <= i < |s| ==> LowersTo(s[i], w[i]) {
        assert Lower(s) == w;
      }
    }
  }

  /** Lower-casing twice is lower-casing once. */
  lemma LowerIdempotent(s: string)
    ensures Lower(Lower(s)) == Lower(s)
  {
  }

  /** `s.split(sep)` for a one-character `sep`: the maximal runs between
      delimiters, so there is always at least one field and `"".split("|")`
      is `[""]`. There is one field more than there are delimiters, and no
      field contains the delimiter. */
  function Split(s: string, sep: char): (r: seq<string>)
    ensures |r| == Count(s, sep) + 1
    ensures forall i :: 0 <= i < |r| ==> sep !in r[i]
    decreases |s|
  {
    if |s| == 0 then [""]
    else
      assert s == [s[0]] + s[1..];
      var rest := Split(s[1..], sep);
      if s[0] == sep then [""] + rest
      else [[s[0]] + rest[0]] + rest[1..]
  }

  /** `sep.join(parts)`: the parts with `sep` between neighbours; the empty
      list joins to the empty text. */
  function Join(sep: string, parts: seq<string>): string
    decreases |parts|
  {
    if |parts| == 0 then ""
    else if |parts| == 1 then parts[0]
    else parts[0] + sep + Join(sep, parts[1..])
  }

  /** Joining the fields of a split with the same delimiter restores the text. */
  lemma {:induction false} JoinSplit(s: string, sep: char)
    ensures Join([sep], Split(s, sep)) == s
    decreases |s|
  {
    if |s| > 0 {
      JoinSplit(s[1..], sep);
      JoinSplitStep(s, sep);
    }
  }

  /** One step of `JoinSplit`: if the rest of a text round-trips, so does the
      text. */
  lemma JoinSplitStep(s: string, sep: char)
    requires |s| > 0
    requires Join([sep], Split(s[1..], sep)) == s[1..]
    ensures Join([sep], Split(s, sep)) == s
  {
    if s[0] == sep {
      JoinSplitAtDelimiter(s, sep);
    } else {
      JoinSplitInField(s, sep);
    }
  }

  /** The step when the text starts with the delimiter: an empty first field. */
  lemma JoinSplitAtDelimiter(s: string, sep: char)
    requires |s| > 0 && s[0] == sep
    requires Join([sep], Split(s[1..], sep)) == s[1..]
    ensures Join([sep], Split(s, sep)) == s
  {
    var rest := Split(s[1..], sep);
    assert Split(s, sep) == [""] + rest;
    JoinCons("", rest, [sep]);
  }

  /** The step when the text starts inside a field: the character heads the
      first field. */
  lemma JoinSplitInField(s: string, sep: char)
    requires |s| > 0 && s[0] != sep
    requires Join([sep], Split(s[1..], sep)) == s[1..]
    ensures Join([sep], Split(s, sep)) == s
  {
    var rest := Split(s[1..], sep);
    assert Split(s, sep) == [[s[0]] + rest[0]] + rest[1..];
    JoinExtendFirst([s[0]], rest, [sep]);
  }

  /** Joining a part in front of a non-empty list puts a separator after it. */
  lemma JoinCons(p: string, rest: seq<string>, sep: string)
    requires |rest| > 0
    ensures Join(sep, [p] + rest) == p + sep + Join(sep, rest)
  {
    assert ([p] + rest)[1..] == rest;
  }

  /** Prefixing the first part prefixes the joined text. */
  lemma JoinExtendFirst(x: string, parts: seq<string>, sep: string)
    requires |parts| > 0
    ensures Join(sep, [x + parts[0]] + parts[1..]) == x + Join(sep, parts)
  {
    var q := [x + parts[0]] + parts[1..];
    assert q[1..] == parts[1..];
    if |parts| > 1 {
      assert Join(sep, parts) == parts[0] + sep + Join(sep, parts[1..]);
    }
  }

  /** A text without the delimiter is a single field. */
  lemma {:induction false} SplitWithout(s: string, sep: char)
    requires sep !in s
    ensures Split(s, sep) == [s]
    decreases |s|
  {
    if |s| > 0 {
      SplitWithout(s[1..], sep);
      assert [s[0]] + s[1..] == s;
    }
  }

  /** Splitting `p + sep + t` with a delimiter-free `p` yields `p` followed by
      the fields of `t`. */
  lemma {:induction false} SplitAfterField(p: string, t: string, sep: char)
    requires sep !in p
    ensures Split(p + [sep] + t, sep) == [p] + Split(t, sep)
    decreases |p|
  {
    var s := p + [sep] + t;
    if |p| == 0 {
      assert s[1..] == t;
    } else {
      assert s[1..] == p[1..] + [sep] + t;
      SplitAfterField(p[1..], t, sep);
      assert [p[0]] + p[1..] == p;
    }
  }

  /** Splitting a join recovers the parts, provided there is at least one
      part and none contains the delimiter. */
  lemma {:induction false} SplitJoin(parts: seq<string>, sep: char)
    requires |parts| >= 1
    requires forall i :: 0 <= i < |parts| ==> sep !in parts[i]
    ensures Split(Join([sep], parts), sep) == parts
    decreases |parts|
  {
    if |parts| == 1 {
      SplitWithout(parts[0], sep);
    } else {
      SplitJoin(parts[1..], sep);
      SplitAfterField(parts[0], Join([sep], parts[1..]), sep);
      assert [parts[0]] + parts[1..] == parts;
    }
  }

  /** Every part after the first, with `tail` put in front of it. */
  function PrefixRest(tail: string, parts: seq<string>): (r: seq<string>)
    ensures |r| == |parts|
  {
    if |parts| == 0 then []
    else [parts[0]] + seq(|parts| - 1, i requires 0 <= i < |parts| - 1 => tail + parts[i + 1])
  }

  /** Joining with a separator `[c] + tail` is joining with `[c]` after
      `tail` is put in front of every part but the first. */
  lemma {:induction false} JoinLongSeparator(c: char, tail: string, parts: seq<string>)
    ensures Join([c] + tail, parts) == Join([c], PrefixRest(tail, parts))
    decreases |parts|
  {
    if |parts| >= 2 {
      var rest := parts[1..];
      JoinLongSeparator(c, tail, rest);
      var q := PrefixRest(tail, parts);
      var qr := PrefixRest(tail, rest);
      PrefixRestCons(tail, parts);
      JoinExtendFirst(tail, qr, [c]);
      JoinCons(q[0], q[1..], [c]);
    }
  }

  /** The prefixed parts of a list of two or more: its first part, then the
      prefixed parts of the rest with `tail` put in front of their first. */
  lemma PrefixRestCons(tail: string, parts: seq<string>)
    requires |parts| >= 2
    ensures var q := PrefixRest(tail, parts);
      var qr := PrefixRest(tail, parts[1..]);
      && q == [parts[0]] + q[1..]
      && q[1..] == [tail + qr[0]] + qr[1..]
  {
    var q := PrefixRest(tail, parts);
    var qr := PrefixRest(tail, parts[1..]);
    assert q[1..] == [tail + qr[0]] + qr[1..] by {
      forall i | 0 <= i < |q| - 1 ensures q[1..][i] == ([tail + qr[0]] + qr[1..])[i] {
        if i > 0 {
          assert qr[i] == tail + parts[1..][i];
        }
      }
    }
  }
}
