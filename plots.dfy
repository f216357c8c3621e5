/** What the three trait scripts (7_mulch_height_extract.py,
    8_trait_extract_dem.py, 9_trait_extract_spectral.py) share: where an
    image's date comes from, the spreadsheet rows they build and group by
    date, the uint8 cast of a mask, the in-place replacement of a value by
    NaN, and the batch folder-pattern normaliser of scripts 7 and 8. */
module Plots {
  import opened Base
  import opened Matrices
  import opened Text

  // ---------------------------------------------------------------------
  // Paths and dates

  /** An image's location: the folders on its path, outermost first, and
      its file name (`os.path.basename`, the "Image ID"). */
  datatype ImagePath = ImagePath(dirs: seq<string>, file: string)

  /** `os.path.basename(os.path.dirname(os.path.dirname(p))).split('_')[0]`:
      the text before the first `_` of the folder two levels above the
      image, as in `20231111_Swb_Cl/dem_by_plot/plot1.tif`. */
  function DateOf(p: ImagePath): (r: string)
    ensures '_' !in r
    ensures |p.dirs| >= 2 ==> StartsWith(p.dirs[|p.dirs| - 2], r)
    ensures |p.dirs| >= 2 && '_' !in p.dirs[|p.dirs| - 2] ==> r == p.dirs[|p.dirs| - 2]
    ensures |p.dirs| >= 2 && |r| < |p.dirs[|p.dirs| - 2]| ==> p.dirs[|p.dirs| - 2][|r|] == '_'
    ensures |p.dirs| < 2 ==> r == []
  {
    FirstToken(if |p.dirs| >= 2 then p.dirs[|p.dirs| - 2] else "", '_')
  }

  // ---------------------------------------------------------------------
  // Rows

  /** A spreadsheet cell: text, an integer, or a float (`None` is NaN). */
  datatype Field = Text(text: string) | Count(count: int) | Num(num: Option<real>)

  /** One output row: column name to cell. */
  type Row = map<string, Field>

  /** The two key columns every trait sheet starts with. */
  const DateColumn: string := "Date"
  const ImageColumn: string := "Image ID"

  /** `output_dict.setdefault(date, []).append(row)` on a value. */
  function AppendRow(tables: map<string, seq<Row>>, date: string, row: Row): (r: map<string, seq<Row>>)
    ensures r.Keys == tables.Keys + {date}
    ensures date in tables ==> r[date] == tables[date] + [row]
    ensures date !in tables ==> r[date] == [row]
    ensures forall d :: d in tables && d != date ==> r[d] == tables[d]
  {
    tables[date := (if date in tables then tables[date] else []) + [row]]
  }

  /** The per-date row lists `output_dict` of scripts 7 and 8. */
  class DateTables {
    var rows: map<string, seq<Row>>

    constructor ()
      ensures rows == map[]
    {
      rows := map[];
    }

    /** Appends `row` to its date's list, creating the list on first use. */
    method Append(date: string, row: Row)
      modifies this
      ensures rows == AppendRow(old(rows), date, row)
    {
      var prior := if date in rows then rows[date] else [];
      rows := rows[date := prior + [row]];
    }
  }

  /** Appending never loses or reorders rows: the rows of each date are a
      prefix of its rows after the append. */
  lemma AppendKeepsOrder(tables: map<string, seq<Row>>, date: string, row: Row, d: string)
    requires d in tables
    ensures d in AppendRow(tables, date, row)
    ensures tables[d] <= AppendRow(tables, date, row)[d]
  {
  }

  // ---------------------------------------------------------------------
  // Masks and cells

  /** `astype(np.uint8)` of an integer: wrap-around modulo 256. */
  function Uint8(x: int): (r: int)
    ensures 0 <= r < 256
    ensures 0 <= x < 256 ==> r == x
    ensures (x - r) % 256 == 0
  {
    x % 256
  }

  /** The common top-left extent of an image and its mask: the scripts
      crop both to the smaller height and the smaller width. */
  function CommonHeight<A, B>(a: Matrix<A>, b: Matrix<B>): nat { Min(|a|, |b|) }

  function CommonWidth<A, B>(a: Matrix<A>, b: Matrix<B>): nat { Min(Width(a), Width(b)) }

  /** A matrix with equal-length rows. */
  predicate Rectangular<T>(m: Matrix<T>) {
    IsRect(m, |m|, Width(m))
  }

  /** `a[a == v] = np.nan`, in place. */
  method ClearValue(a: array2<Option<real>>, v: real)
    modifies a
    ensures forall i, j :: 0 <= i < a.Length0 && 0 <= j < a.Length1 ==>
              a[i, j] == if old(a[i, j]) == Some(v) then None else old(a[i, j])
  {
    var i := 0;
    while i < a.Length0
      invariant 0 <= i <= a.Length0
      invariant forall r, c :: 0 <= r < a.Length0 && 0 <= c < a.Length1 ==>
                  a[r, c] == if r < i && old(a[r, c]) == Some(v) then None else old(a[r, c])
    {
      var j := 0;
      while j < a.Length1
        invariant 0 <= j <= a.Length1
        invariant forall r, c :: 0 <= r < a.Length0 && 0 <= c < a.Length1 ==>
                    a[r, c] == if (r < i || (r == i && c < j)) && old(a[r, c]) == Some(v) then None else old(a[r, c])
      {
        if a[i, j] == Some(v) {
          a[i, j] := None;
        }
        j := j + 1;
      }
      i := i + 1;
    }
  }

  /** A matrix value copied into a fresh two-dimensional array. */
  method ToArray(m: Matrix<Option<real>>, h: nat, w: nat) returns (a: array2<Option<real>>)
    requires IsRect(m, h, w)
    ensures fresh(a)
    ensures a.Length0 == h && a.Length1 == w
    ensures ToMatrix(a) == m
  {
    a := new Option<real>[h, w]((i, j) requires 0 <= i < h && 0 <= j < w => m[i][j]);
    assert forall i :: 0 <= i < h ==> ToMatrix(a)[i] == m[i];
  }

  // ---------------------------------------------------------------------
  // Batch folder patterns (_normalize_patterns)

  /** The pattern used when none is given. */
  const DefaultPattern: string := "*AS_S2*"

  /** `any(ch in p for ch in '*?[')` */
  predicate HasWildcard(p: string) {
    '*' in p || '?' in p || '[' in p
  }

  /** A token without wildcard characters is wrapped as `*token*`. */
  function Wildcarded(t: string): (r: string)
    ensures HasWildcard(r)
    ensures HasWildcard(t) ==> r == t
    ensures !HasWildcard(t) ==> |r| == |t| + 2 && r[0] == '*' && r[|r| - 1] == '*' && r[1..|r| - 1] == t
    ensures forall c :: c in r ==> c in t || c == '*'
  {
    if HasWildcard(t) then t else "*" + t + "*"
  }

  /** One token of `_normalize_patterns`: wrapped when it has no wildcard,
      then lower-cased.  Lower-casing keeps the wildcard and adds no
      separator. */
  function NormalizeToken(t: string): (r: string)
    ensures r != [] && HasWildcard(r)
    ensures forall i :: 0 <= i < |r| ==> !IsUpperAscii(r[i])
    ensures forall c :: c in r && !IsLowerAscii(c) ==> c in t || c == '*'
  {
    var w := Wildcarded(t);
    var r := Lower(w);
    assert HasWildcard(r) by {
      var i :| 0 <= i < |w| && (w[i] == '*' || w[i] == '?' || w[i] == '[');
      assert r[i] == w[i];
    }
    forall c | c in r && !IsLowerAscii(c) ensures c in t || c == '*' {
      var i :| 0 <= i < |r| && r[i] == c;
      assert w[i] == c;
    }
    r
  }

  /** The `raw` tokens of `_normalize_patterns`: the pieces between commas
      and semicolons, stripped, the empty ones dropped. */
  function PatternTokens(s: string): (tokens: seq<string>)
    ensures forall k :: 0 <= k < |tokens| ==>
              tokens[k] != [] && Trimmed(tokens[k]) && ',' !in tokens[k] && ';' !in tokens[k]
    ensures exists pieces :: SeparatedBy(pieces, s) && tokens == StrippedTokens(pieces)
  {
    var pieces := Split(ReplaceChar(s, ';', ','), ',');
    SplitAvoids(ReplaceChar(s, ';', ','), ',', ';');
    StrippedTokensAvoid(pieces, ',');
    StrippedTokensAvoid(pieces, ';');
    var tokens := StrippedTokens(pieces);
    assert SeparatedBy(pieces, s);
    assert forall k :: 0 <= k < |tokens| ==> tokens[k] in tokens;
    tokens
  }

  /** `pieces` are the pieces of `s` between its commas and semicolons:
      none holds a separator, and joining them with commas gives `s` with
      each semicolon read as a comma. */
  predicate SeparatedBy(pieces: seq<string>, s: string) {
    |pieces| > 0
    && (forall k :: 0 <= k < |pieces| ==> ',' !in pieces[k] && ';' !in pieces[k])
    && Join(pieces, ',') == ReplaceChar(s, ';', ',')
  }

  /** The pieces between the separators are unique, so `PatternTokens` is
      determined by them: any such pieces give its tokens. */
  lemma PatternTokensOfPieces(s: string, pieces: seq<string>)
    requires SeparatedBy(pieces, s)
    ensures PatternTokens(s) == StrippedTokens(pieces)
  {
    SplitJoin(pieces, ',');
  }

  /** Each token normalised, in order. */
  function NormalizeAll(tokens: seq<string>): (r: seq<string>)
    ensures |r| == |tokens|
    ensures forall k :: 0 <= k < |r| ==> r[k] == NormalizeToken(tokens[k])
  {
    seq(|tokens|, k requires 0 <= k < |tokens| => NormalizeToken(tokens[k]))
  }

  /** `_normalize_patterns`: with no pattern the default; otherwise each
      token normalised. */
  function NormalizePatterns(s: string): (r: seq<string>)
    ensures s == [] ==> r == [DefaultPattern]
    ensures s != [] ==> exists pieces :: SeparatedBy(pieces, s) && r == NormalizeAll(StrippedTokens(pieces))
    ensures s != [] ==> forall k :: 0 <= k < |r| ==> ',' !in r[k] && ';' !in r[k]
  {
    if s == [] then [DefaultPattern]
    else
      var tokens := PatternTokens(s);
      var r := NormalizeAll(tokens);
      var pieces :| SeparatedBy(pieces, s) && tokens == StrippedTokens(pieces);
      forall k | 0 <= k < |r| ensures ',' !in r[k] && ';' !in r[k] {
        NormalizeTokenAvoids(tokens[k], ',');
        NormalizeTokenAvoids(tokens[k], ';');
      }
      r
  }

  /** Normalising a token adds no punctuation other than `*`. */
  lemma NormalizeTokenAvoids(t: string, c: char)
    requires c !in t && c != '*' && !IsLowerAscii(c)
    ensures c !in NormalizeToken(t)
  {
  }

  /** Normalising normalised tokens changes nothing. */
  lemma NormalizeAllIdempotent(tokens: seq<string>)
    ensures NormalizeAll(NormalizeAll(tokens)) == NormalizeAll(tokens)
  {
    var r := NormalizeAll(tokens);
    forall k | 0 <= k < |r| ensures NormalizeAll(r)[k] == r[k] {
      NormalizeTokenFixed(r[k]);
    }
  }

  /** A normalised trimmed token is still trimmed. */
  lemma NormalizeTokenTrimmed(t: string)
    requires t != [] && Trimmed(t)
    ensures Trimmed(NormalizeToken(t))
  {
    var w := Wildcarded(t);
    assert Trimmed(w);
    LowerKeepsSpace(w);
  }

  /** A token that is already normalised is its own normal form. */
  lemma NormalizeTokenFixed(t: string)
    requires HasWildcard(t)
    requires forall i :: 0 <= i < |t| ==> !IsUpperAscii(t[i])
    ensures NormalizeToken(t) == t
  {
    LowerWithoutUpper(t);
  }

  /** Replacing a character that does not occur changes nothing. */
  lemma ReplaceAbsent(s: string, a: char, b: char)
    requires a !in s
    ensures ReplaceChar(s, a, b) == s
  {
  }

  /** Every normalised pattern is a non-empty trimmed token. */
  lemma NormalizedTrimmed(s: string)
    requires s != []
    ensures forall k :: 0 <= k < |NormalizePatterns(s)| ==>
              NormalizePatterns(s)[k] != [] && Trimmed(NormalizePatterns(s)[k])
  {
    var r := NormalizePatterns(s);
    var tokens := PatternTokens(s);
    forall k | 0 <= k < |r| ensures r[k] != [] && Trimmed(r[k]) {
      NormalizeTokenTrimmed(tokens[k]);
    }
  }

  /** Splitting the comma-joined normalised patterns gives them back as
      tokens. */
  lemma TokensOfJoined(r: seq<string>)
    requires |r| > 0
    requires forall k :: 0 <= k < |r| ==> r[k] != [] && Trimmed(r[k]) && ',' !in r[k] && ';' !in r[k]
    ensures PatternTokens(Join(r, ',')) == r
  {
    var joined := Join(r, ',');
    JoinAvoids(r, ',', ';');
    ReplaceAbsent(joined, ';', ',');
    SplitJoin(r, ',');
    StrippedTokensOfTrimmed(r);
  }

  /** Normalised patterns are a fixed point: joining them with commas and
      normalising again gives them back. */
  lemma NormalizeIdempotent(s: string)
    requires s != [] && NormalizePatterns(s) != []
    ensures NormalizePatterns(Join(NormalizePatterns(s), ',')) == NormalizePatterns(s)
  {
    var tokens := PatternTokens(s);
    var r := NormalizeAll(tokens);
    assert NormalizePatterns(s) == r;
    NormalizedTrimmed(s);
    TokensOfJoined(r);
    JoinNonEmpty(r, ',');
    NormalizeAllIdempotent(tokens);
    var joined := Join(r, ',');
    assert NormalizePatterns(joined) == NormalizeAll(PatternTokens(joined));
  }

  /** A character absent from every part, other than the separator, is
      absent from the joined text. */
  lemma {:induction false} JoinAvoids(parts: seq<string>, sep: char, c: char)
    requires |parts| > 0 && c != sep
    requires forall k :: 0 <= k < |parts| ==> c !in parts[k]
    ensures c !in Join(parts, sep)
  {
    if |parts| > 1 {
      JoinAvoids(parts[1..], sep, c);
    }
  }

  lemma JoinNonEmpty(parts: seq<string>, sep: char)
    requires |parts| > 0 && parts[0] != []
    ensures Join(parts, sep) != []
  {
  }

  /** Lower-casing keeps a token trimmed (whitespace is not a letter). */
  lemma LowerKeepsSpace(t: string)
    ensures forall i :: 0 <= i < |t| ==> (IsSpace(Lower(t)[i]) <==> IsSpace(t[i]))
  {
  }
}
