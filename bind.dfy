/** The `:bind:` option of the `sparql:select` directive: a comma-separated
    list of variable names, split with Python's `str.split(",")` and each
    piece trimmed with `str.strip()` (sphinx_sparql/__init__.py, line 83). */
module BindOption {

  import opened SparqlResults

  /** Python's `str.isspace()` for one character: the ASCII blanks and
      separators 9-13 and 28-31, the space, and the Unicode spaces. */
  predicate IsSpace(c: char) {
    var n := c as int;
    n == 0x20 || 0x09 <= n <= 0x0D || 0x1C <= n <= 0x1F || n == 0x85 || n == 0xA0
    || n == 0x1680 || 0x2000 <= n <= 0x200A || n == 0x2028 || n == 0x2029
    || n == 0x202F || n == 0x205F || n == 0x3000
  }

  /** The number of occurrences of `c` in `s`. */
  function Count(s: string, c: char): nat {
    if s == [] then 0 else (if s[0] == c then 1 else 0) + Count(s[1..], c)
  }

  /** `s.split(sep)` with an explicit separator: every occurrence cuts, empty
      pieces are kept, and the empty string gives one empty piece. */
  function Split(s: string, sep: char): (pieces: seq<string>)
    ensures |pieces| == Count(s, sep) + 1
    ensures forall i :: 0 <= i < |pieces| ==> sep !in pieces[i]
  {
    if s == [] then [[]]
    else
      var rest := Split(s[1..], sep);
      if s[0] == sep then [[]] + rest
      else [[s[0]] + rest[0]] + rest[1..]
  }

  /** `sep.join(pieces)`, the inverse of Split. */
  function Join(pieces: seq<string>, sep: char): string {
    if pieces == [] then []
    else if |pieces| == 1 then pieces[0]
    else pieces[0] + [sep] + Join(pieces[1..], sep)
  }

  /** The length of the longest prefix of `s` made of whitespace. */
  function LeadingSpaces(s: string): (n: nat)
    ensures n <= |s|
    ensures forall i :: 0 <= i < n ==> IsSpace(s[i])
    ensures n < |s| ==> !IsSpace(s[n])
  {
    if s != [] && IsSpace(s[0]) then 1 + LeadingSpaces(s[1..]) else 0
  }

  /** The length of the longest suffix of `s` made of whitespace. */
  function TrailingSpaces(s: string): (n: nat)
    ensures n <= |s|
    ensures forall i :: |s| - n <= i < |s| ==> IsSpace(s[i])
    ensures n < |s| ==> !IsSpace(s[|s| - n - 1])
  {
    if s != [] && IsSpace(s[|s| - 1]) then 1 + TrailingSpaces(s[..|s| - 1]) else 0
  }

  /** `s.strip()`: `s` without its leading and trailing whitespace. The result
      is a contiguous slice of `s`, only whitespace lies outside it, and it
      neither starts nor ends with whitespace. */
  function Strip(s: string): (r: string)
    ensures |r| <= |s|
    ensures r != [] ==> !IsSpace(r[0]) && !IsSpace(r[|r| - 1])
    ensures exists i :: SliceBetweenSpaces(s, i, r)
  {
    var lead := LeadingSpaces(s);
    var t := s[lead..];
    var r := t[..|t| - TrailingSpaces(t)];
    assert SliceBetweenSpaces(s, lead, r);
    r
  }

  /** `r` is the slice of `s` starting at `i`, and only whitespace lies
      before and after it. */
  predicate SliceBetweenSpaces(s: string, i: int, r: string) {
    && 0 <= i <= |s| - |r|
    && r == s[i..i + |r|]
    && (forall k :: 0 <= k < i ==> IsSpace(s[k]))
    && (forall k :: i + |r| <= k < |s| ==> IsSpace(s[k]))
  }

  /** A name as `strip()` leaves it: no whitespace at either end. */
  predicate Stripped(s: string) {
    s == [] || (!IsSpace(s[0]) && !IsSpace(s[|s| - 1]))
  }

  /** `[x.strip() for x in value.split(",")]`: one name per comma-separated
      piece, in order, each without a comma and without surrounding
      whitespace. */
  function ParseBind(value: string): (names: seq<string>)
    ensures |names| == Count(value, ',') + 1
    ensures forall i :: 0 <= i < |names| ==> names[i] == Strip(Split(value, ',')[i])
    ensures forall i :: 0 <= i < |names| ==> ',' !in names[i] && Stripped(names[i])
  {
    var pieces := Split(value, ',');
    seq(|pieces|, i requires 0 <= i < |pieces| => StripPiece(pieces[i]))
  }

  /** Strip applied to a piece that has no comma keeps it comma-free. */
  function StripPiece(piece: string): (r: string)
    ensures r == Strip(piece)
    ensures ',' !in piece ==> ',' !in r
  {
    var r := Strip(piece);
    assert forall c :: c in r ==> c in piece;
    r
  }

  /** The directive's `bound_vars`: the parsed list when `:bind:` is given,
      otherwise None, which makes the table use the query's variables. */
  function BoundVars(bind: Option<string>): (vars: Option<seq<string>>)
    ensures vars.None? <==> bind.None?
    ensures bind.Some? ==> |vars.value| == Count(bind.value, ',') + 1
    ensures bind.Some? ==> forall i :: 0 <= i < |vars.value| ==> vars.value[i] == Strip(Split(bind.value, ',')[i])
  {
    match bind
    case None => None
    case Some(value) => Some(ParseBind(value))
  }

  /** Splitting then joining at the same separator gives back the input. */
  lemma {:induction false} JoinSplit(s: string, sep: char)
    ensures Join(Split(s, sep), sep) == s
  {
    if s != [] {
      var rest := Split(s[1..], sep);
      JoinSplit(s[1..], sep);
      if s[0] == sep {
        assert Split(s, sep) == [[]] + rest;
      } else {
        var ps := Split(s, sep);
        assert ps == [[s[0]] + rest[0]] + rest[1..];
        if |rest| == 1 {
          assert Join(rest, sep) == rest[0];
        } else {
          assert rest == [rest[0]] + rest[1..];
          assert Join(rest, sep) == rest[0] + [sep] + Join(rest[1..], sep);
          assert ps[1..] == rest[1..];
        }
      }
    }
  }

  /** Splitting a piece without separator glued to the front of `s`. */
  lemma {:induction false} SplitPrefix(p: string, s: string, sep: char)
    requires sep !in p
    ensures Split(p + s, sep) == [p + Split(s, sep)[0]] + Split(s, sep)[1..]
  {
    if p != [] {
      var S := Split(s, sep);
      SplitPrefix(p[1..], s, sep);
      assert (p + s)[0] == p[0] && (p + s)[1..] == p[1..] + s;
      var rest := Split(p[1..] + s, sep);
      assert rest == [p[1..] + S[0]] + S[1..];
      assert Split(p + s, sep) == [[p[0]] + rest[0]] + rest[1..];
      assert [p[0]] + (p[1..] + S[0]) == p + S[0];
    } else {
      assert p + s == s;
      assert p + Split(s, sep)[0] == Split(s, sep)[0];
      assert Split(s, sep) == [Split(s, sep)[0]] + Split(s, sep)[1..];
    }
  }

  /** Joining pieces that hold no separator and splitting again gives back
      the pieces: Split is the exact inverse of Join. */
  lemma {:induction false} SplitJoin(pieces: seq<string>, sep: char)
    requires |pieces| >= 1
    requires forall i :: 0 <= i < |pieces| ==> sep !in pieces[i]
    ensures Split(Join(pieces, sep), sep) == pieces
  {
    if |pieces| == 1 {
      SplitPrefix(pieces[0], [], sep);
      assert pieces[0] + [] == pieces[0];
    } else {
      var tail := Join(pieces[1..], sep);
      SplitJoin(pieces[1..], sep);
      assert Join(pieces, sep) == pieces[0] + ([sep] + tail);
      assert ([sep] + tail)[1..] == tail;
      var rest := Split([sep] + tail, sep);
      assert rest == [[]] + pieces[1..];
      SplitPrefix(pieces[0], [sep] + tail, sep);
      assert pieces[0] + rest[0] == pieces[0];
      assert rest[1..] == pieces[1..];
      assert pieces == [pieces[0]] + pieces[1..];
    }
  }

  /** A name that is already stripped is left alone by Strip. */
  lemma StripStripped(s: string)
    requires Stripped(s)
    ensures Strip(s) == s
  {
    if s != [] {
      assert LeadingSpaces(s) == 0;
      assert TrailingSpaces(s) == 0;
    }
  }

  /** Stripping twice is the same as stripping once. */
  lemma StripIdempotent(s: string)
    ensures Strip(Strip(s)) == Strip(s)
  {
    StripStripped(Strip(s));
  }

  /** Writing a list of names as `a,b,c` and parsing it as a `:bind:` value
      gives back the list, provided no name holds a comma or surrounding
      whitespace. */
  lemma ParseBindJoin(names: seq<string>)
    requires |names| >= 1
    requires forall i :: 0 <= i < |names| ==> ',' !in names[i] && Stripped(names[i])
    ensures ParseBind(Join(names, ',')) == names
  {
    SplitJoin(names, ',');
    forall i | 0 <= i < |names| ensures Strip(names[i]) == names[i] {
      StripStripped(names[i]);
    }
  }
}
