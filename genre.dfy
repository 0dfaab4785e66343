/** The genre field of the admin movie form: the comma-separated text the
    administrator types, the list the movie API stores, and the two
    conversions between them (normalising on submit, formatting on edit). */
module Genre {
  import opened JsValues

  /** The characters `String.prototype.trim` removes. JavaScript's set is
      larger (every Unicode space separator); the proofs below rely only on
      ' ' being whitespace and ',' not being whitespace. */
  predicate IsWhitespace(c: char)
  {
    c == ' ' || c == '\t' || c == '\n' || c == '\r' || c == '\U{B}' || c == '\U{C}'
    || c == '\U{A0}' || c == '\U{FEFF}' || c == '\U{2028}' || c == '\U{2029}'
  }

  predicate AllWhitespace(s: string)
  {
    forall i :: 0 <= i < |s| ==> IsWhitespace(s[i])
  }

  /** Neither end of `s` is whitespace. */
  predicate IsTrimmed(s: string)
  {
    s == [] || (!IsWhitespace(s[0]) && !IsWhitespace(s[|s| - 1]))
  }

  /** Every character is a separator or whitespace. */
  predicate OnlyCommasAndBlanks(s: string)
  {
    forall i :: 0 <= i < |s| ==> s[i] == ',' || IsWhitespace(s[i])
  }

  /** A genre list as the normaliser produces it: every entry non-empty,
      equal to its own trim, and free of commas. */
  predicate WellFormedGenres(gs: seq<string>)
  {
    forall i :: 0 <= i < |gs| ==> IsGenre(gs[i])
  }

  predicate IsGenre(g: string)
  {
    g != [] && IsTrimmed(g) && ',' !in g
  }

  /** Drops leading whitespace: the result is a suffix of `s` that does not
      start with whitespace, and everything removed was whitespace. */
  function TrimStart(s: string): (r: string)
    ensures |r| <= |s| && r == s[|s| - |r|..]
    ensures r == [] || !IsWhitespace(r[0])
    ensures AllWhitespace(s[..|s| - |r|])
  {
    if s != [] && IsWhitespace(s[0]) then TrimStart(s[1..]) else s
  }

  /** Drops trailing whitespace: the result is a prefix of `s` that does not
      end with whitespace, and everything removed was whitespace. */
  function TrimEnd(s: string): (r: string)
    ensures |r| <= |s| && r == s[..|r|]
    ensures r == [] || !IsWhitespace(r[|r| - 1])
    ensures AllWhitespace(s[|r|..])
  {
    if s != [] && IsWhitespace(s[|s| - 1]) then TrimEnd(s[..|s| - 1]) else s
  }

  /** Both ends of `TrimEnd(TrimStart(s))` were cut from `s` as whitespace. */
  /** Cutting a whitespace prefix of length `k` and then a whitespace
      suffix leaves a slice of `s` with whitespace on both sides. */
  lemma CutBothEnds(s: string, t: string, r: string, k: nat)
    requires k <= |s| && t == s[k..] && AllWhitespace(s[..k])
    requires |r| <= |t| && r == t[..|r|] && AllWhitespace(t[|r|..])
    ensures k <= |s| - |r|
    ensures r == s[k..k + |r|]
    ensures AllWhitespace(s[..k]) && AllWhitespace(s[k + |r|..])
  {
    SliceOfSlice(s, k, 0, |r|);
    SliceOfSlice(s, k, |r|, |t| - |r|);
    assert t[|r|..] == t[|r|..|t|];
  }

  /** A slice of the suffix `s[j..]` is a slice of `s`. */
  lemma SliceOfSlice(s: string, j: nat, i: nat, n: nat)
    requires j + i + n <= |s|
    ensures s[j..][i..i + n] == s[j + i..j + i + n]
  {
    var a, b := s[j..][i..i + n], s[j + i..j + i + n];
    forall m | 0 <= m < n ensures a[m] == b[m] {
    }
  }

  lemma TrimShape(s: string, t: string, r: string)
    requires t == TrimStart(s) && r == TrimEnd(t)
    ensures IsTrimmed(r)
    ensures r == [] <==> AllWhitespace(s)
    ensures r == s <==> IsTrimmed(s)
  {
    assert t == [] ==> s[..|s|] == s;
    assert r != [] ==> r[0] == t[0];
    assert IsTrimmed(s) ==> t == s;
  }

  /** `r` sits at offset `k` of `s` with only whitespace before and after. */
  predicate WhitespaceFramed(s: string, k: nat, r: string)
  {
    k + |r| <= |s| && r == s[k..k + |r|]
    && AllWhitespace(s[..k]) && AllWhitespace(s[k + |r|..])
  }

  /** `String.prototype.trim`: `s` with its leading and trailing whitespace
      cut off. */
  function Trim(s: string): (r: string)
    ensures exists k :: WhitespaceFramed(s, k, r)
    ensures IsTrimmed(r)
    ensures r == [] <==> AllWhitespace(s)
    ensures r == s <==> IsTrimmed(s)
  {
    var t := TrimStart(s);
    var r := TrimEnd(t);
    var k := |s| - |t|;
    CutBothEnds(s, t, r, k);
    assert WhitespaceFramed(s, k, r);
    TrimShape(s, t, r);
    r
  }

  /** `Array.prototype.join`: the parts with `sep` between neighbours.
      `JoinSplit` and `SplitJoin` show that splitting on the separator
      undoes it, and `JoinCommaSpace` relates joining with ", " to joining
      with ",". */
  function Join(parts: seq<string>, sep: string): string
  {
    if parts == [] then []
    else if |parts| == 1 then parts[0]
    else parts[0] + sep + Join(parts[1..], sep)
  }

  /** `String.prototype.split` with a one-character separator: the maximal
      separator-free pieces, one more than there are separators, so the
      empty string splits into one empty piece. */
  function Split(s: string, sep: char): (r: seq<string>)
    ensures |r| >= 1
    ensures forall i :: 0 <= i < |r| ==> sep !in r[i]
  {
    if s == [] then [[]]
    else
      var rest := Split(s[1..], sep);
      if s[0] == sep then [[]] + rest
      else [[s[0]] + rest[0]] + rest[1..]
  }

  /** `pieces.map(g => g.trim())`. */
  function TrimAll(pieces: seq<string>): (r: seq<string>)
    ensures |r| == |pieces|
    ensures forall i :: 0 <= i < |r| ==> r[i] == Trim(pieces[i])
  {
    if pieces == [] then [] else [Trim(pieces[0])] + TrimAll(pieces[1..])
  }

  /** `pieces.filter(g => g)`: keeps the non-empty strings, in order. */
  function DropEmpty(pieces: seq<string>): (r: seq<string>)
    ensures forall i :: 0 <= i < |r| ==> r[i] != [] && r[i] in pieces
    ensures r == [] <==> forall i :: 0 <= i < |pieces| ==> pieces[i] == []
    ensures (forall i :: 0 <= i < |pieces| ==> pieces[i] != []) ==> r == pieces
  {
    if pieces == [] then []
    else if pieces[0] == [] then DropEmpty(pieces[1..])
    else [pieces[0]] + DropEmpty(pieces[1..])
  }

  lemma DropEmptyCons(p: string, pieces: seq<string>)
    ensures DropEmpty([p] + pieces) == if p == [] then DropEmpty(pieces) else [p] + DropEmpty(pieces)
  {
    assert ([p] + pieces)[1..] == pieces;
  }

  /** Filtering keeps every non-empty piece, as often as it occurs. */
  lemma {:induction false} DropEmptyKeepsNonEmpty(pieces: seq<string>)
    ensures forall p :: p != [] ==> multiset(DropEmpty(pieces))[p] == multiset(pieces)[p]
  {
    if pieces != [] {
      DropEmptyKeepsNonEmpty(pieces[1..]);
      DropEmptyCons(pieces[0], pieces[1..]);
      assert pieces == [pieces[0]] + pieces[1..];
    }
  }

  /** Filtering keeps order: the kept pieces of a concatenation are the
      kept pieces of the first part followed by those of the second. */
  lemma {:induction false} DropEmptyConcat(a: seq<string>, b: seq<string>)
    ensures DropEmpty(a + b) == DropEmpty(a) + DropEmpty(b)
  {
    if a == [] {
      assert a + b == b;
    } else {
      DropEmptyConcat(a[1..], b);
      SplitHead(a, b);
      DropEmptyConsConcat(a[0], a[1..], b);
    }
  }

  /** The inductive step of `DropEmptyConcat`: one more leading piece. */
  lemma DropEmptyConsConcat(x: string, xs: seq<string>, b: seq<string>)
    requires DropEmpty(xs + b) == DropEmpty(xs) + DropEmpty(b)
    ensures DropEmpty([x] + (xs + b)) == DropEmpty([x] + xs) + DropEmpty(b)
  {
    DropEmptyCons(x, xs + b);
    DropEmptyCons(x, xs);
    if x != [] {
      ConsAppend(x, DropEmpty(xs), DropEmpty(b));
    }
  }

  lemma SplitHead(a: seq<string>, b: seq<string>)
    requires a != []
    ensures a == [a[0]] + a[1..] && a + b == [a[0]] + (a[1..] + b)
  {
  }

  lemma ConsAppend(x: string, u: seq<string>, v: seq<string>)
    ensures [x] + (u + v) == ([x] + u) + v
  {
  }

  /** Trimming cannot introduce a comma. */
  lemma TrimCommaFree(s: string)
    requires ',' !in s
    ensures ',' !in Trim(s)
  {
    var t := TrimStart(s);
    assert t == s[|s| - |t|..];
    assert ',' !in t;
    assert TrimEnd(t) == t[..|TrimEnd(t)|];
  }

  lemma WellFormedCons(g: string, gs: seq<string>)
    requires IsGenre(g) && WellFormedGenres(gs)
    ensures WellFormedGenres([g] + gs)
  {
    var all := [g] + gs;
    forall i | 0 <= i < |all| ensures IsGenre(all[i]) {
      if i > 0 { assert all[i] == gs[i - 1]; }
    }
  }

  /** Trimming comma-free pieces and dropping the empty ones leaves a
      well-formed genre list. */
  lemma {:induction false} NormalisedWellFormed(pieces: seq<string>)
    requires forall i :: 0 <= i < |pieces| ==> ',' !in pieces[i]
    ensures WellFormedGenres(DropEmpty(TrimAll(pieces)))
  {
    if pieces != [] {
      var t := Trim(pieces[0]);
      var rest := TrimAll(pieces[1..]);
      assert TrimAll(pieces) == [t] + rest;
      assert ([t] + rest)[1..] == rest;
      NormalisedWellFormed(pieces[1..]);
      if t != [] {
        TrimCommaFree(pieces[0]);
        WellFormedCons(t, DropEmpty(rest));
      }
    }
  }

  /** `text.split(',').map(g => g.trim()).filter(g => g)`. */
  function ParseGenreText(text: string): (gs: seq<string>)
    ensures WellFormedGenres(gs)
  {
    NormalisedWellFormed(Split(text, ','));
    DropEmpty(TrimAll(Split(text, ',')))
  }

  /** The genre normalisation of the submit handler: a non-empty string is
      parsed, an array passes through unchanged, anything else gives `[]`. */
  function ParseGenre(v: JsValue): (gs: seq<string>)
    ensures v.Str? ==> WellFormedGenres(gs)
    ensures v.Arr? ==> gs == v.items
    ensures !v.Str? && !v.Arr? ==> gs == []
  {
    if Truthy(v) && v.Str? then ParseGenreText(v.s)
    else if v.Arr? then v.items
    else []
  }

  /** The genre formatting of the edit handler: an array is joined with
      ", ", a string is kept, anything else becomes ''. */
  function FormatGenre(v: JsValue): (text: string)
    ensures v.Arr? ==> text == Join(v.items, ", ")
    ensures v.Arr? && v.items == [] ==> text == []
    ensures v.Arr? && |v.items| == 1 ==> text == v.items[0]
    ensures v.Str? ==> text == v.s
    ensures !v.Str? && !v.Arr? ==> text == []
  {
    match v
    case Arr(items) => Join(items, ", ")
    case Str(s) => s
    case _ => []
  }

  // ---------------------------------------------------------------------
  // Split and Join are inverse to each other.

  /** Splitting `a + s` where `a` holds no separator glues `a` onto the
      first piece of `s` and leaves the other pieces alone. */
  lemma {:induction false} SplitAfterPlainPrefix(a: string, s: string, sep: char)
    requires sep !in a
    ensures Split(a + s, sep) == [a + Split(s, sep)[0]] + Split(s, sep)[1..]
  {
    if a != [] {
      var tail := Split(s, sep);
      SplitAfterPlainPrefix(a[1..], s, sep);
      assert (a + s)[0] == a[0] && a[0] != sep;
      assert (a + s)[1..] == a[1..] + s;
      var rest := Split(a[1..] + s, sep);
      assert rest[0] == a[1..] + tail[0] && rest[1..] == tail[1..];
      assert Split(a + s, sep) == [[a[0]] + rest[0]] + rest[1..];
      assert [a[0]] + (a[1..] + tail[0]) == a + tail[0];
    } else {
      var tail := Split(s, sep);
      assert a + s == s && a + tail[0] == tail[0];
      assert [tail[0]] + tail[1..] == tail;
    }
  }

  /** Joining the pieces of a split with the separator gives the text back. */
  lemma {:induction false} JoinSplit(s: string, sep: char)
    ensures Join(Split(s, sep), [sep]) == s
  {
    if s != [] {
      var rest := Split(s[1..], sep);
      JoinSplit(s[1..], sep);
      if s[0] == sep {
        assert ([[]] + rest)[1..] == rest;
      } else {
        var r := [[s[0]] + rest[0]] + rest[1..];
        if |rest| > 1 {
          assert r[1..] == rest[1..];
          assert Join(rest, [sep]) == rest[0] + [sep] + Join(rest[1..], [sep]);
          assert Join(r, [sep]) == [s[0]] + (rest[0] + [sep] + Join(rest[1..], [sep]));
        }
        assert s == [s[0]] + s[1..];
      }
    }
  }

  /** Splitting a join of separator-free parts gives the parts back. */
  lemma {:induction false} SplitJoin(parts: seq<string>, sep: char)
    requires |parts| >= 1
    requires forall i :: 0 <= i < |parts| ==> sep !in parts[i]
    ensures Split(Join(parts, [sep]), sep) == parts
  {
    if |parts| == 1 {
      SplitAfterPlainPrefix(parts[0], [], sep);
      assert parts[0] + [] == parts[0];
    } else {
      var tail := Join(parts[1..], [sep]);
      SplitJoin(parts[1..], sep);
      SplitAfterPlainPrefix(parts[0], [sep] + tail, sep);
      assert parts[0] + [sep] + tail == parts[0] + ([sep] + tail);
      assert ([sep] + tail)[1..] == tail;
      var after := Split([sep] + tail, sep);
      assert after == [[]] + parts[1..];
      assert after[0] == [] && after[1..] == parts[1..];
      assert parts[0] + [] == parts[0];
      assert parts == [parts[0]] + parts[1..];
    }
  }

  // ---------------------------------------------------------------------
  // Normalising a genre string.

  /** The `formData.genre &&` guard does not change the result for strings:
      the empty string parses to the empty list anyway. */
  lemma ParseGenreOfString(s: string)
    ensures ParseGenre(Str(s)) == ParseGenreText(s)
  {
    if s == [] {
      assert !Truthy(Str(s));
      ParseEmptyText();
    } else {
      assert Truthy(Str(s));
    }
  }

  lemma ParseEmptyText()
    ensures ParseGenreText([]) == []
  {
    var pieces: seq<string> := [[]];
    assert Split([], ',') == pieces;
    assert TrimAll(pieces) == pieces;
    assert DropEmpty(pieces) == [];
  }

  predicate AllBlank(pieces: seq<string>)
  {
    forall i :: 0 <= i < |pieces| ==> AllWhitespace(pieces[i])
  }

  lemma AllBlankCons(p: string, pieces: seq<string>)
    ensures AllBlank([p] + pieces) <==> AllWhitespace(p) && AllBlank(pieces)
  {
    var ps := [p] + pieces;
    if AllBlank(ps) {
      assert AllWhitespace(ps[0]);
      forall i | 0 <= i < |pieces| ensures AllWhitespace(pieces[i]) {
        assert pieces[i] == ps[i + 1];
      }
    }
    if AllWhitespace(p) && AllBlank(pieces) {
      forall i | 0 <= i < |ps| ensures AllWhitespace(ps[i]) {
        if i > 0 { assert ps[i] == pieces[i - 1]; }
      }
    }
  }

  lemma AllWhitespaceCons(c: char, s: string)
    ensures AllWhitespace([c] + s) <==> IsWhitespace(c) && AllWhitespace(s)
  {
    var t := [c] + s;
    if AllWhitespace(t) {
      assert IsWhitespace(t[0]);
      forall i | 0 <= i < |s| ensures IsWhitespace(s[i]) {
        assert s[i] == t[i + 1];
      }
    }
    if IsWhitespace(c) && AllWhitespace(s) {
      forall i | 0 <= i < |t| ensures IsWhitespace(t[i]) {
        if i > 0 { assert t[i] == s[i - 1]; }
      }
    }
  }

  lemma OnlyCommasAndBlanksCons(s: string)
    requires s != []
    ensures OnlyCommasAndBlanks(s) <==> (s[0] == ',' || IsWhitespace(s[0])) && OnlyCommasAndBlanks(s[1..])
  {
    assert forall i :: 0 <= i < |s[1..]| ==> s[1..][i] == s[i + 1];
    if (s[0] == ',' || IsWhitespace(s[0])) && OnlyCommasAndBlanks(s[1..]) {
      forall i | 0 <= i < |s| ensures s[i] == ',' || IsWhitespace(s[i]) {
        if i > 0 { assert s[i] == s[1..][i - 1]; }
      }
    }
  }

  /** The pieces of a split are all blank exactly when the text holds only
      commas and whitespace. */
  lemma {:induction false} PiecesBlank(s: string)
    ensures AllBlank(Split(s, ',')) <==> OnlyCommasAndBlanks(s)
  {
    if s == [] {
      assert Split(s, ',') == [[]];
      AllBlankCons([], []);
    } else {
      var rest := Split(s[1..], ',');
      PiecesBlank(s[1..]);
      OnlyCommasAndBlanksCons(s);
      if s[0] == ',' {
        AllBlankCons([], rest);
      } else {
        AllBlankCons([s[0]] + rest[0], rest[1..]);
        AllBlankCons(rest[0], rest[1..]);
        AllWhitespaceCons(s[0], rest[0]);
        assert [rest[0]] + rest[1..] == rest;
      }
    }
  }

  /** Trimming and dropping empty pieces leaves nothing exactly when every
      piece is blank. */
  lemma NormalisedEmptyIff(pieces: seq<string>)
    ensures DropEmpty(TrimAll(pieces)) == [] <==> AllBlank(pieces)
  {
    var trimmed := TrimAll(pieces);
    assert forall i :: 0 <= i < |pieces| ==> (trimmed[i] == [] <==> AllWhitespace(pieces[i]));
  }

  /** A genre string normalises to the empty list exactly when it holds
      nothing but commas and whitespace; the empty string is one such. */
  lemma ParseGenreEmptyIff(s: string)
    ensures ParseGenre(Str(s)) == [] <==> OnlyCommasAndBlanks(s)
  {
    ParseGenreOfString(s);
    PiecesBlank(s);
    NormalisedEmptyIff(Split(s, ','));
  }

  // ---------------------------------------------------------------------
  // Formatting then normalising gives a well-formed list back.

  /** Every entry prefixed with one space. */
  function SpacePrefixed(gs: seq<string>): (r: seq<string>)
    ensures |r| == |gs|
    ensures forall i :: 0 <= i < |r| ==> r[i] == [' '] + gs[i]
  {
    if gs == [] then [] else [[' '] + gs[0]] + SpacePrefixed(gs[1..])
  }

  lemma {:induction false} JoinUnderSpace(g: string, gs: seq<string>, sep: string)
    ensures Join([[' '] + g] + gs, sep) == [' '] + Join([g] + gs, sep)
  {
    if gs != [] {
      assert ([[' '] + g] + gs)[1..] == gs;
      assert ([g] + gs)[1..] == gs;
    }
  }

  /** Joining with ", " is joining with "," after prefixing every entry but
      the first with a space. */
  lemma {:induction false} JoinCommaSpace(gs: seq<string>)
    requires |gs| >= 1
    ensures Join(gs, ", ") == Join([gs[0]] + SpacePrefixed(gs[1..]), [','])
  {
    if |gs| > 1 {
      var tail := gs[1..];
      JoinCommaSpace(tail);
      assert SpacePrefixed(tail) == [[' '] + tail[0]] + SpacePrefixed(tail[1..]);
      JoinUnderSpace(tail[0], SpacePrefixed(tail[1..]), [',']);
      assert ([gs[0]] + SpacePrefixed(tail))[1..] == SpacePrefixed(tail);
      assert gs[0] + [','] + ([' '] + Join(tail, ", ")) == gs[0] + ", " + Join(tail, ", ");
    }
  }

  /** Trimming strips the space that formatting put before an entry. */
  lemma TrimSpacePrefixed(g: string)
    requires IsTrimmed(g) && g != []
    ensures Trim([' '] + g) == g
  {
    assert ([' '] + g)[1..] == g;
    assert TrimStart([' '] + g) == g;
  }

  /** The pieces that splitting a formatted list on ',' yields. */
  function FormattedPieces(gs: seq<string>): (pieces: seq<string>)
    requires |gs| >= 1
    ensures |pieces| == |gs| && pieces[0] == gs[0]
    ensures forall i :: 1 <= i < |gs| ==> pieces[i] == [' '] + gs[i]
  {
    [gs[0]] + SpacePrefixed(gs[1..])
  }

  lemma FormattedPiecesCommaFree(gs: seq<string>)
    requires |gs| >= 1 && WellFormedGenres(gs)
    ensures forall i :: 0 <= i < |gs| ==> ',' !in FormattedPieces(gs)[i]
  {
    var pieces := FormattedPieces(gs);
    forall i | 0 <= i < |gs| ensures ',' !in pieces[i] {
      assert ',' !in gs[i];
      if i > 0 { assert pieces[i] == [' '] + gs[i]; }
    }
  }

  lemma TrimFormattedPieces(gs: seq<string>)
    requires |gs| >= 1 && WellFormedGenres(gs)
    ensures TrimAll(FormattedPieces(gs)) == gs
  {
    var trimmed := TrimAll(FormattedPieces(gs));
    forall i | 0 <= i < |gs| ensures trimmed[i] == gs[i] {
      assert gs[i] != [] && IsTrimmed(gs[i]);
      if i > 0 { TrimSpacePrefixed(gs[i]); }
    }
  }

  lemma SplitFormatted(gs: seq<string>)
    requires |gs| >= 1 && WellFormedGenres(gs)
    ensures Split(Join(gs, ", "), ',') == FormattedPieces(gs)
  {
    JoinCommaSpace(gs);
    FormattedPiecesCommaFree(gs);
    SplitJoin(FormattedPieces(gs), ',');
  }

  lemma ParseFormatted(gs: seq<string>)
    requires |gs| >= 1 && WellFormedGenres(gs)
    ensures ParseGenreText(Join(gs, ", ")) == gs
  {
    SplitFormatted(gs);
    TrimFormattedPieces(gs);
    assert forall i :: 0 <= i < |gs| ==> gs[i] != [];
  }

  /** Round trip: formatting a well-formed genre list for editing and
      normalising the text on submit gives the same list. */
  lemma GenreRoundTrip(gs: seq<string>)
    requires WellFormedGenres(gs)
    ensures ParseGenre(Str(FormatGenre(Arr(gs)))) == gs
  {
    assert FormatGenre(Arr(gs)) == Join(gs, ", ");
    ParseGenreOfString(Join(gs, ", "));
    if gs != [] {
      ParseFormatted(gs);
    }
  }

  /** Normalisation is idempotent: formatting a normalised list and
      normalising again changes nothing. */
  lemma ParseGenreIdempotent(s: string)
    ensures ParseGenre(Str(FormatGenre(Arr(ParseGenre(Str(s)))))) == ParseGenre(Str(s))
  {
    GenreRoundTrip(ParseGenre(Str(s)));
  }
}
