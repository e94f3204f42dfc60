/**
 Readers for the strings the grid builders write, proved to invert them.

 Every builder output is a list of tokens, each followed by a terminator
 character: a row of area names is names each followed by ' ', a track list is
 "<n>fr" tokens each followed by ' ', and a template is rows each framed by '"'.
 `Terminated` is that shape and `Split` reads it back; the round-trip lemmas
 below show that no two inputs of a builder give the same string.
 */
module GridParse {
  import opened Wrappers
  import opened Codec

  // ---------------------------------------------------------------------------
  // Terminated token lists
  // ---------------------------------------------------------------------------

  /** Every token followed by the terminator `t`, in order. */
  function Terminated(ts: seq<string>, t: char): string {
    if ts == [] then "" else ts[0] + [t] + Terminated(ts[1..], t)
  }

  predicate NoTerminator(ts: seq<string>, t: char) {
    forall k | 0 <= k < |ts| :: t !in ts[k]
  }

  lemma {:induction false} TerminatedSnoc(ts: seq<string>, x: string, t: char)
    ensures Terminated(ts + [x], t) == Terminated(ts, t) + x + [t]
  {
    if ts == [] {
      assert [] + [x] == [x];
      assert [x][1..] == [];
    } else {
      assert (ts + [x])[1..] == ts[1..] + [x];
      TerminatedSnoc(ts[1..], x, t);
    }
  }

  function Prepend(x: string, r: Option<seq<string>>): Option<seq<string>> {
    if r.Some? then Some([x] + r.value) else None
  }

  /**
   Cuts `s` at every `t`, with `cur` the characters read since the last one;
   fails when characters are left over after the last terminator.
   */
  function Split(s: string, t: char, cur: string): Option<seq<string>>
    decreases |s|
  {
    if s == [] then (if cur == [] then Some([]) else None)
    else if s[0] == t then Prepend(cur, Split(s[1..], t, []))
    else Split(s[1..], t, cur + [s[0]])
  }

  lemma {:induction false} SplitToken(x: string, rest: string, t: char, cur: string)
    requires t !in x
    ensures Split(x + [t] + rest, t, cur) == Prepend(cur + x, Split(rest, t, []))
  {
    if x == [] {
      assert [] + [t] + rest == [t] + rest;
      assert ([t] + rest)[1..] == rest;
      assert cur + [] == cur;
    } else {
      var s := x + [t] + rest;
      assert s[0] == x[0] && s[1..] == x[1..] + [t] + rest;
      SplitToken(x[1..], rest, t, cur + [x[0]]);
      assert (cur + [x[0]]) + x[1..] == cur + x;
    }
  }

  /** Splitting a terminated list gives the tokens back, when no token holds the terminator. */
  lemma {:induction false} SplitTerminated(ts: seq<string>, t: char)
    requires NoTerminator(ts, t)
    ensures Split(Terminated(ts, t), t, []) == Some(ts)
  {
    if ts != [] {
      assert NoTerminator(ts[1..], t);
      SplitTerminated(ts[1..], t);
      SplitToken(ts[0], Terminated(ts[1..], t), t, []);
      assert [] + ts[0] == ts[0];
      assert [ts[0]] + ts[1..] == ts;
    }
  }

  /** Whatever `Split` accepts is a terminated list of tokens free of the terminator. */
  lemma {:induction false} SplitSound(s: string, t: char, cur: string, ts: seq<string>)
    requires t !in cur && Split(s, t, cur) == Some(ts)
    ensures cur + s == Terminated(ts, t) && NoTerminator(ts, t)
    decreases |s|
  {
    if s == [] {
      assert cur + s == cur;
    } else if s[0] == t {
      var rest := Split(s[1..], t, []).value;
      SplitSound(s[1..], t, [], rest);
      assert ts == [cur] + rest && ts[1..] == rest;
      assert s == [t] + s[1..];
    } else {
      SplitSound(s[1..], t, cur + [s[0]], ts);
      assert s == [s[0]] + s[1..];
    }
  }

  // ---------------------------------------------------------------------------
  // Rows of area names
  // ---------------------------------------------------------------------------

  /** The names of a row's area ids, in order. */
  function Names(row: seq<nat>): seq<string>
  {
    seq(|row|, i requires 0 <= i < |row| => AreaName(row[i]))
  }

  /** A row string is the row's names, each followed by a space. */
  lemma {:induction false} AreaRowIsTerminated(row: seq<nat>)
    ensures AreaRow(row) == Terminated(Names(row), ' ')
  {
    if row != [] {
      var init := row[..|row| - 1];
      AreaRowIsTerminated(init);
      assert Names(row) == Names(init) + [AreaName(row[|row| - 1])];
      TerminatedSnoc(Names(init), AreaName(row[|row| - 1]), ' ');
    }
  }

  lemma NamesHaveNoSpace(row: seq<nat>)
    ensures NoTerminator(Names(row), ' ') && NoTerminator(Names(row), '"')
  {
    forall k | 0 <= k < |row|
      ensures ' ' !in Names(row)[k] && '"' !in Names(row)[k]
    {
      AreaNameIsToken(row[k]);
    }
  }

  /** Decodes every name of a list; fails if any one is not a name. */
  function DecodeAll(ns: seq<string>): Option<seq<nat>> {
    if ns == [] then Some([])
    else
      match (DecodeArea(ns[0]), DecodeAll(ns[1..]))
      case (Some(n), Some(rest)) => Some([n] + rest)
      case _ => None
  }

  lemma {:induction false} DecodeAllNames(row: seq<nat>)
    ensures DecodeAll(Names(row)) == Some(row)
  {
    if row != [] {
      assert Names(row)[1..] == Names(row[1..]);
      DecodeAllNames(row[1..]);
      AreaNameRoundTrip(row[0]);
      assert [row[0]] + row[1..] == row;
    }
  }

  /** Reads a row string back to its area ids. */
  function ParseAreaRow(s: string): Option<seq<nat>> {
    match Split(s, ' ', [])
    case Some(ns) => DecodeAll(ns)
    case None => None
  }

  /** Reading a row string gives back the row it was built from. */
  lemma AreaRowRoundTrip(row: seq<nat>)
    ensures ParseAreaRow(AreaRow(row)) == Some(row)
  {
    AreaRowIsTerminated(row);
    NamesHaveNoSpace(row);
    SplitTerminated(Names(row), ' ');
    DecodeAllNames(row);
  }

  lemma ConsSplit<T>(s: seq<T>)
    requires s != []
    ensures [s[0]] + s[1..] == s
  {
  }

  /** A sequence whose head is x and whose tail matches b, position by position, is [x] + b. */
  lemma ConsPointwise<T>(a: seq<T>, x: T, b: seq<T>)
    requires |a| == 1 + |b| && a[0] == x
    requires forall k | 0 <= k < |b| :: a[k + 1] == b[k]
    ensures a == [x] + b
  {
    assert forall k | 0 <= k < |a| :: a[k] == ([x] + b)[k];
  }

  lemma NamesCons(n: nat, rest: seq<nat>)
    ensures Names([n] + rest) == [AreaName(n)] + Names(rest)
  {
    var row := [n] + rest;
    forall k | 0 <= k < |rest|
      ensures Names(row)[k + 1] == Names(rest)[k]
    {
      assert row[k + 1] == rest[k];
    }
    ConsPointwise(Names(row), AreaName(n), Names(rest));
  }

  lemma DecodeAllStep(ns: seq<string>, row: seq<nat>)
    requires ns != [] && DecodeAll(ns) == Some(row)
    ensures DecodeArea(ns[0]).Some? && DecodeAll(ns[1..]).Some?
    ensures row == [DecodeArea(ns[0]).value] + DecodeAll(ns[1..]).value
  {
  }

  lemma {:induction false} DecodeAllSound(ns: seq<string>, row: seq<nat>)
    requires DecodeAll(ns) == Some(row)
    ensures ns == Names(row)
  {
    if ns != [] {
      DecodeAllStep(ns, row);
      var n, rest := DecodeArea(ns[0]).value, DecodeAll(ns[1..]).value;
      DecodeAreaSound(ns[0], n);
      DecodeAllSound(ns[1..], rest);
      ConsSplit(ns);
      NamesCons(n, rest);
    }
  }

  /** Whatever the row reader accepts is the row string of the ids it yields. */
  lemma AreaRowSound(s: string, row: seq<nat>)
    requires ParseAreaRow(s) == Some(row)
    ensures AreaRow(row) == s
  {
    var ns := Split(s, ' ', []).value;
    SplitSound(s, ' ', [], ns);
    DecodeAllSound(ns, row);
    AreaRowIsTerminated(row);
    assert [] + s == s;
  }

  lemma AreaRowInjective(a: seq<nat>, b: seq<nat>)
    requires AreaRow(a) == AreaRow(b)
    ensures a == b
  {
    AreaRowRoundTrip(a);
    AreaRowRoundTrip(b);
  }

  /** A character other than the terminator occurs in a terminated list only inside a token. */
  lemma {:induction false} TerminatedAvoids(ts: seq<string>, t: char, c: char)
    requires c != t && NoTerminator(ts, c)
    ensures c !in Terminated(ts, t)
  {
    if ts != [] {
      assert NoTerminator(ts[1..], c);
      TerminatedAvoids(ts[1..], t, c);
      assert c !in ts[0] + [t];
    }
  }

  // ---------------------------------------------------------------------------
  // grid-template-areas strings
  // ---------------------------------------------------------------------------

  /** The template of a list of rows: each row string between quotes, in order. */
  function TemplateOfRows(rs: seq<seq<nat>>): string {
    if rs == [] then ""
    else TemplateOfRows(rs[..|rs| - 1]) + Quoted(AreaRow(rs[|rs| - 1]))
  }

  lemma RowsPrefixStep(areas: seq<nat>, width: nat, height: nat, k: nat)
    requires |areas| == width * height && k < height
    ensures TemplateOfRows(Rows(areas, width, height)[..k + 1])
         == TemplateOfRows(Rows(areas, width, height)[..k]) + Quoted(AreaRow(Row(areas, width, height, k)))
  {
    var rs := Rows(areas, width, height);
    assert rs[..k + 1][..k] == rs[..k];
    assert rs[..k + 1][k] == Row(areas, width, height, k);
  }

  lemma {:induction false} TemplatePrefixIsRows(areas: seq<nat>, width: nat, height: nat, j: nat)
    requires |areas| == width * height && j <= height
    ensures j * width <= |areas|
    ensures TemplatePrefix(areas, width, j) == TemplateOfRows(Rows(areas, width, height)[..j])
  {
    if j > 0 {
      var k := j - 1;
      RowInBounds(k, width, height);
      TemplatePrefixIsRows(areas, width, height, k);
      RowsPrefixStep(areas, width, height, k);
      TemplatePrefixStep(areas, width, k, Row(areas, width, height, k));
    }
  }

  /** The template string is the template of the grid's rows. */
  lemma TemplateAreasIsRows(areas: seq<nat>, width: nat, height: nat)
    requires |areas| == width * height
    ensures TemplateAreas(areas, width, height) == TemplateOfRows(Rows(areas, width, height))
  {
    TemplatePrefixIsRows(areas, width, height, height);
    assert Rows(areas, width, height)[..height] == Rows(areas, width, height);
  }

  /** The tokens between quote characters: an empty one before each row, then the row. */
  function Framed(rs: seq<seq<nat>>): (ts: seq<string>)
    ensures |ts| == 2 * |rs|
  {
    if rs == [] then [] else Framed(rs[..|rs| - 1]) + ["", AreaRow(rs[|rs| - 1])]
  }

  lemma {:induction false} TemplateIsTerminated(rs: seq<seq<nat>>)
    ensures TemplateOfRows(rs) == Terminated(Framed(rs), '"')
  {
    if rs != [] {
      var init, r := rs[..|rs| - 1], AreaRow(rs[|rs| - 1]);
      TemplateIsTerminated(init);
      assert Framed(init) + ["", r] == Framed(init) + [""] + [r];
      TerminatedSnoc(Framed(init) + [""], r, '"');
      TerminatedSnoc(Framed(init), "", '"');
      QuotedAfter(Terminated(Framed(init), '"'), r);
    }
  }

  lemma QuotedAfter(done: string, r: string)
    ensures done + "" + ['"'] + r + ['"'] == done + Quoted(r)
  {
  }

  lemma {:induction false} FramedHasNoQuote(rs: seq<seq<nat>>)
    ensures NoTerminator(Framed(rs), '"')
  {
    if rs != [] {
      var row := rs[|rs| - 1];
      FramedHasNoQuote(rs[..|rs| - 1]);
      AreaRowIsTerminated(row);
      NamesHaveNoSpace(row);
      TerminatedAvoids(Names(row), ' ', '"');
    }
  }

  /** Reads the framed tokens back to rows, last row first; fails on any other shape. */
  function Unframe(ts: seq<string>): Option<seq<seq<nat>>> {
    if ts == [] then Some([])
    else if |ts| >= 2 && ts[|ts| - 2] == "" then
      match (Unframe(ts[..|ts| - 2]), ParseAreaRow(ts[|ts| - 1]))
      case (Some(init), Some(row)) => Some(init + [row])
      case _ => None
    else None
  }

  lemma SnocSplit<T>(s: seq<T>)
    requires s != []
    ensures s[..|s| - 1] + [s[|s| - 1]] == s
  {
  }

  lemma FramedSnoc(rs: seq<seq<nat>>)
    requires rs != []
    ensures Framed(rs)[..|Framed(rs)| - 2] == Framed(rs[..|rs| - 1])
    ensures Framed(rs)[|Framed(rs)| - 2] == "" && Framed(rs)[|Framed(rs)| - 1] == AreaRow(rs[|rs| - 1])
  {
    var ts, init := Framed(rs), Framed(rs[..|rs| - 1]);
    assert ts == init + ["", AreaRow(rs[|rs| - 1])];
  }

  lemma UnframeSnoc(ts: seq<string>, init: seq<seq<nat>>, row: seq<nat>)
    requires |ts| >= 2 && ts[|ts| - 2] == ""
    requires Unframe(ts[..|ts| - 2]) == Some(init) && ParseAreaRow(ts[|ts| - 1]) == Some(row)
    ensures Unframe(ts) == Some(init + [row])
  {
  }

  lemma {:induction false} UnframeFramed(rs: seq<seq<nat>>)
    ensures Unframe(Framed(rs)) == Some(rs)
  {
    if rs != [] {
      var init, last := rs[..|rs| - 1], rs[|rs| - 1];
      SnocSplit(rs);
      FramedSnoc(rs);
      UnframeFramed(init);
      AreaRowRoundTrip(last);
      UnframeSnoc(Framed(rs), init, last);
    }
  }

  lemma UnframeStep(ts: seq<string>, rs: seq<seq<nat>>)
    requires ts != [] && Unframe(ts) == Some(rs)
    ensures |ts| >= 2 && ts[|ts| - 2] == ""
    ensures Unframe(ts[..|ts| - 2]).Some? && ParseAreaRow(ts[|ts| - 1]).Some?
    ensures rs == Unframe(ts[..|ts| - 2]).value + [ParseAreaRow(ts[|ts| - 1]).value]
  {
  }

  lemma FramedStep(ts: seq<string>, init: seq<seq<nat>>, row: seq<nat>)
    requires |ts| >= 2 && ts[|ts| - 2] == ""
    requires ts[..|ts| - 2] == Framed(init) && ts[|ts| - 1] == AreaRow(row)
    ensures ts == Framed(init + [row])
  {
    SnocInit(init, row);
    PairSplit(ts);
  }

  lemma SnocInit<T>(s: seq<T>, x: T)
    ensures (s + [x])[..|s|] == s && (s + [x])[|s|] == x
  {
  }

  lemma PairSplit<T>(s: seq<T>)
    requires |s| >= 2
    ensures s[..|s| - 2] + [s[|s| - 2], s[|s| - 1]] == s
  {
  }

  lemma {:induction false} UnframeSound(ts: seq<string>, rs: seq<seq<nat>>)
    requires Unframe(ts) == Some(rs)
    ensures ts == Framed(rs)
    decreases |ts|
  {
    if ts != [] {
      UnframeStep(ts, rs);
      var init, row := Unframe(ts[..|ts| - 2]).value, ParseAreaRow(ts[|ts| - 1]).value;
      UnframeSound(ts[..|ts| - 2], init);
      AreaRowSound(ts[|ts| - 1], row);
      FramedStep(ts, init, row);
    }
  }

  /** Reads a grid-template-areas string back to its rows of area ids. */
  function ParseTemplateAreas(s: string): Option<seq<seq<nat>>> {
    match Split(s, '"', [])
    case Some(ts) => Unframe(ts)
    case None => None
  }

  /** Reading a template gives back the grid's rows, in row-major order. */
  lemma TemplateAreasRoundTrip(areas: seq<nat>, width: nat, height: nat)
    requires |areas| == width * height
    ensures ParseTemplateAreas(TemplateAreas(areas, width, height)) == Some(Rows(areas, width, height))
  {
    var rs := Rows(areas, width, height);
    TemplateAreasIsRows(areas, width, height);
    TemplateIsTerminated(rs);
    FramedHasNoQuote(rs);
    SplitTerminated(Framed(rs), '"');
    UnframeFramed(rs);
  }

  /** Whatever the template reader accepts is the template of the rows it yields. */
  lemma TemplateAreasSound(s: string, rs: seq<seq<nat>>)
    requires ParseTemplateAreas(s) == Some(rs)
    ensures TemplateOfRows(rs) == s
  {
    var ts := Split(s, '"', []).value;
    SplitSound(s, '"', [], ts);
    UnframeSound(ts, rs);
    TemplateIsTerminated(rs);
    assert [] + s == s;
  }

  /** Two grids of the same shape with the same template string have the same area ids. */
  lemma TemplateAreasInjective(a: seq<nat>, b: seq<nat>, width: nat, height: nat)
    requires |a| == width * height && |b| == width * height
    requires TemplateAreas(a, width, height) == TemplateAreas(b, width, height)
    ensures a == b
  {
    TemplateAreasRoundTrip(a, width, height);
    TemplateAreasRoundTrip(b, width, height);
    RowsDetermineAreas(a, b, width, height);
  }

  // ---------------------------------------------------------------------------
  // fr track lists
  // ---------------------------------------------------------------------------

  /** The track tokens of a list of weights: each numeral followed by "fr". */
  function FrTokens(nums: seq<nat>): seq<string>
  {
    seq(|nums|, i requires 0 <= i < |nums| => Decimal(nums[i]) + "fr")
  }

  lemma AppendFrToken(prefix: string, d: string)
    ensures prefix + d + "fr " == prefix + (d + "fr") + [' ']
  {
  }

  /** A track list is the track tokens, each followed by a space. */
  lemma {:induction false} FrTracksIsTerminated(nums: seq<nat>)
    ensures FrTracks(nums) == Terminated(FrTokens(nums), ' ')
  {
    if nums != [] {
      var init, last := nums[..|nums| - 1], nums[|nums| - 1];
      FrTracksIsTerminated(init);
      assert FrTokens(nums) == FrTokens(init) + [Decimal(last) + "fr"];
      TerminatedSnoc(FrTokens(init), Decimal(last) + "fr", ' ');
      AppendFrToken(FrTracks(init), Decimal(last));
    }
  }

  lemma FrTokensHaveNoSpace(nums: seq<nat>)
    ensures NoTerminator(FrTokens(nums), ' ')
  {
    forall k | 0 <= k < |nums|
      ensures ' ' !in FrTokens(nums)[k]
    {
      var d := Decimal(nums[k]);
      assert forall i | 0 <= i < |d| :: IsDigit(d[i]);
    }
  }

  /** Reads one "<numeral>fr" token back to its weight. */
  function ParseFrToken(s: string): Option<nat> {
    if |s| >= 2 && s[|s| - 2..] == "fr" then ParseDecimal(s[..|s| - 2]) else None
  }

  lemma FrTokenRoundTrip(n: nat)
    ensures ParseFrToken(Decimal(n) + "fr") == Some(n)
  {
    var s := Decimal(n) + "fr";
    assert s[..|s| - 2] == Decimal(n) && s[|s| - 2..] == "fr";
    DecimalRoundTrip(n);
  }

  function ParseFrTokens(ts: seq<string>): Option<seq<nat>> {
    if ts == [] then Some([])
    else
      match (ParseFrToken(ts[0]), ParseFrTokens(ts[1..]))
      case (Some(n), Some(rest)) => Some([n] + rest)
      case _ => None
  }

  lemma {:induction false} ParseFrTokensOfTokens(nums: seq<nat>)
    ensures ParseFrTokens(FrTokens(nums)) == Some(nums)
  {
    if nums != [] {
      assert FrTokens(nums)[1..] == FrTokens(nums[1..]);
      ParseFrTokensOfTokens(nums[1..]);
      FrTokenRoundTrip(nums[0]);
      assert [nums[0]] + nums[1..] == nums;
    }
  }

  lemma ParseFrTokenSound(s: string, n: nat)
    requires ParseFrToken(s) == Some(n)
    ensures s == Decimal(n) + "fr"
  {
    ParseDecimalSound(s[..|s| - 2], n);
    assert s == s[..|s| - 2] + s[|s| - 2..];
  }

  lemma FrTokensCons(n: nat, rest: seq<nat>)
    ensures FrTokens([n] + rest) == [Decimal(n) + "fr"] + FrTokens(rest)
  {
    var nums := [n] + rest;
    forall k | 0 <= k < |rest|
      ensures FrTokens(nums)[k + 1] == FrTokens(rest)[k]
    {
      assert nums[k + 1] == rest[k];
    }
    ConsPointwise(FrTokens(nums), Decimal(n) + "fr", FrTokens(rest));
  }

  lemma ParseFrTokensStep(ts: seq<string>, nums: seq<nat>)
    requires ts != [] && ParseFrTokens(ts) == Some(nums)
    ensures ParseFrToken(ts[0]).Some? && ParseFrTokens(ts[1..]).Some?
    ensures nums == [ParseFrToken(ts[0]).value] + ParseFrTokens(ts[1..]).value
  {
  }

  lemma {:induction false} ParseFrTokensSound(ts: seq<string>, nums: seq<nat>)
    requires ParseFrTokens(ts) == Some(nums)
    ensures ts == FrTokens(nums)
  {
    if ts != [] {
      ParseFrTokensStep(ts, nums);
      var n, rest := ParseFrToken(ts[0]).value, ParseFrTokens(ts[1..]).value;
      ParseFrTokenSound(ts[0], n);
      ParseFrTokensSound(ts[1..], rest);
      ConsSplit(ts);
      FrTokensCons(n, rest);
    }
  }

  /** Reads a grid-template-rows or grid-template-columns string back to its weights. */
  function ParseFrTracks(s: string): Option<seq<nat>> {
    match Split(s, ' ', [])
    case Some(ts) => ParseFrTokens(ts)
    case None => None
  }

  /** Reading a track list gives back the weights it was built from, in order. */
  lemma FrTracksRoundTrip(nums: seq<nat>)
    ensures ParseFrTracks(FrTracks(nums)) == Some(nums)
  {
    FrTracksIsTerminated(nums);
    FrTokensHaveNoSpace(nums);
    SplitTerminated(FrTokens(nums), ' ');
    ParseFrTokensOfTokens(nums);
  }

  /** Whatever the track reader accepts is the track list of the weights it yields. */
  lemma FrTracksSound(s: string, nums: seq<nat>)
    requires ParseFrTracks(s) == Some(nums)
    ensures FrTracks(nums) == s
  {
    var ts := Split(s, ' ', []).value;
    SplitSound(s, ' ', [], ts);
    ParseFrTokensSound(ts, nums);
    FrTracksIsTerminated(nums);
    assert [] + s == s;
  }

  lemma FrTracksInjective(a: seq<nat>, b: seq<nat>)
    requires FrTracks(a) == FrTracks(b)
    ensures a == b
  {
    FrTracksRoundTrip(a);
    FrTracksRoundTrip(b);
  }
}
