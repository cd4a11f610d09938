/**
 * The per-post handler (`handle_post`): filter the post's url, read the
 * PlantNet identification response, and render the Markdown comment.
 * The HTTP request is not modelled: its decoded JSON reply is an input.
 */
module PostHandler {
  import opened Wrappers
  import opened Text

  /** One entry of the reply's `results` list: `species.commonNames`,
      `species.scientificNameWithoutAuthor` and `score`, the score kept as
      the text Python's f-string prints for it. */
  datatype Candidate = Candidate(commonNames: seq<string>, scientificName: string, scoreText: string)

  /** The decoded reply: `Error` when it carries a `statusCode` key,
      otherwise its `bestMatch` and its `results` in the order received. */
  datatype Identification = Error | Ok(bestMatch: string, results: seq<Candidate>)

  /** Only urls containing this text are treated as images hosted by the instance. */
  const ImageHostMarker: string := "pictrs"

  /** At most this many results become table rows (`results[:5]`). */
  const MaxRows: nat := 5

  const Intro: string := "\n**Automatic identification via PlantNet summary**\n\n"
  const Header: string := "\n\n|Common name|Scientific name|Likeliness|\n|-|-|-|\n"
  const Outro: string := "\nBeep, boop\n\nI'm a bot, and this action was performed automatically.\n"

  function Min(a: int, b: int): (m: int) { if a <= b then a else b }

  /** The handler asks PlantNet only about a present url that mentions the image host. */
  predicate IsHostedImage(url: Option<string>) {
    url.Some? && IsSubstring(ImageHostMarker, url.value)
  }

  /** The first common name, or `/` when the species has none. */
  function CommonName(names: seq<string>): (c: string)
    ensures |names| > 0 ==> c == names[0]
    ensures names == [] ==> c == "/"
  {
    if |names| != 0 then names[0] else "/"
  }

  /** One table row without its line break: `|common|scientific|score %|`. */
  function RowLine(c: Candidate): (row: string) {
    "|" + CommonName(c.commonNames) + "|" + c.scientificName + "|" + c.scoreText + " %|"
  }

  /** The table text for `cs`: each row followed by a line break, in order. */
  function Rows(cs: seq<Candidate>): (table: string) {
    if cs == [] then "" else RowLine(cs[0]) + "\n" + Rows(cs[1..])
  }

  /** `results[:5]`: the leading results, never re-sorted. */
  function Top(results: seq<Candidate>): (top: seq<Candidate>)
    ensures |top| == Min(MaxRows, |results|)
    ensures forall i :: 0 <= i < |top| ==> top[i] == results[i]
  {
    results[..Min(MaxRows, |results|)]
  }

  /** The `Most likely match` line. */
  function MatchLine(bestMatch: string): (line: string) {
    "Most likely match: **" + bestMatch + "**"
  }

  /** The comment template around the best match and the table. */
  function CommentText(bestMatch: string, table: string): (text: string) {
    Intro + MatchLine(bestMatch) + Header + table + Outro
  }

  /** What the handler prints for a post with `url`, given the reply
      PlantNet gives for it; `None` when it returns early. */
  function Comment(url: Option<string>, response: Identification): (r: Option<string>)
    ensures r.None? <==> !IsHostedImage(url) || response.Error?
    ensures r.Some? ==> url.Some? && IsSubstring(ImageHostMarker, url.value)
  {
    if url.None? then None
    else if !IsSubstring(ImageHostMarker, url.value) then None
    else if response.Error? then None
    else Some(CommentText(response.bestMatch, Rows(Top(response.results))))
  }

  lemma {:induction false} RowsAppend(cs: seq<Candidate>, c: Candidate)
    ensures Rows(cs + [c]) == Rows(cs) + RowLine(c) + "\n"
  {
    if cs == [] {
      assert [] + [c] == [c];
      assert [c][1..] == [];
    } else {
      var rest := cs[1..] + [c];
      assert (cs + [c])[0] == cs[0] && (cs + [c])[1..] == rest;
      assert Rows(cs + [c]) == RowLine(cs[0]) + "\n" + Rows(rest);
      RowsAppend(cs[1..], c);
      assert Rows(rest) == Rows(cs[1..]) + RowLine(c) + "\n";
    }
  }

  /** The table loop of `handle_post`: one row per leading result. */
  method RenderTable(results: seq<Candidate>) returns (table: string)
    ensures table == Rows(Top(results))
  {
    var top := results[..Min(MaxRows, |results|)];
    table := "";
    for i := 0 to |top|
      invariant table == Rows(top[..i])
    {
      RowsAppend(top[..i], top[i]);
      assert top[..i + 1] == top[..i] + [top[i]];
      table := table + RowLine(top[i]) + "\n";
    }
    assert top[..|top|] == top;
  }

  /** `handle_post`: the three early returns, then the rendered comment. */
  method HandlePost(url: Option<string>, response: Identification) returns (comment: Option<string>)
    ensures comment == Comment(url, response)
  {
    if url.None? {
      return None;
    }
    if !IsSubstring(ImageHostMarker, url.value) {
      return None;
    }
    if response.Error? {
      return None;
    }
    var table := RenderTable(response.results);
    comment := Some(CommentText(response.bestMatch, table));
  }

  /** A row's printed fields contain no line break. */
  predicate SingleLine(c: Candidate) {
    '\n' !in CommonName(c.commonNames) && '\n' !in c.scientificName && '\n' !in c.scoreText
  }

  /** The lines of a table are its rows in order, followed by the empty
      text after the final line break. */
  lemma {:induction false} RowsLines(cs: seq<Candidate>)
    requires forall i :: 0 <= i < |cs| ==> SingleLine(cs[i])
    ensures |Split(Rows(cs), '\n')| == |cs| + 1
    ensures Split(Rows(cs), '\n')[|cs|] == ""
    ensures forall i :: 0 <= i < |cs| ==> Split(Rows(cs), '\n')[i] == RowLine(cs[i])
  {
    if cs == [] {
    } else {
      RowsLines(cs[1..]);
      assert '\n' !in RowLine(cs[0]) by { assert SingleLine(cs[0]); }
      SplitField(RowLine(cs[0]), Rows(cs[1..]), '\n');
      assert Rows(cs) == RowLine(cs[0]) + ['\n'] + Rows(cs[1..]);
    }
  }

  /** The table of a produced comment has exactly `min(5, |results|)`
      lines, line `i` rendered from `results[i]`. */
  lemma TableLines(results: seq<Candidate>)
    requires forall i :: 0 <= i < Min(MaxRows, |results|) ==> SingleLine(results[i])
    ensures var lines := Split(Rows(Top(results)), '\n');
      && |lines| == Min(MaxRows, |results|) + 1
      && lines[|lines| - 1] == ""
      && forall i :: 0 <= i < |lines| - 1 ==> lines[i] == RowLine(results[i])
  {
    RowsLines(Top(results));
  }

  /** A row's fields contain no cell separator. */
  predicate NoPipe(c: Candidate) {
    '|' !in CommonName(c.commonNames) && '|' !in c.scientificName && '|' !in c.scoreText
  }

  /** Read back as Markdown cells, a row holds the common name (or `/`),
      the scientific name and the raw score followed by ` %`. */
  lemma RowCells(c: Candidate)
    requires NoPipe(c)
    ensures Split(RowLine(c), '|') == ["", CommonName(c.commonNames), c.scientificName, c.scoreText + " %", ""]
  {
    var a, b, p := CommonName(c.commonNames), c.scientificName, c.scoreText + " %";
    assert '|' !in p;
    assert RowLine(c) == [] + ['|'] + (a + ['|'] + (b + ['|'] + (p + ['|'] + [])));
    SplitFields("", a, b, p, '|');
  }

  /** Four fields without `d`, each followed by `d`, split into those fields and an empty tail. */
  lemma SplitFields(w: string, a: string, b: string, p: string, d: char)
    requires d !in w && d !in a && d !in b && d !in p
    ensures Split(w + [d] + (a + [d] + (b + [d] + (p + [d] + []))), d) == [w, a, b, p, ""]
  {
    SplitWithout([], d);
    SplitField(p, [], d);
    SplitField(b, p + [d] + [], d);
    SplitField(a, b + [d] + (p + [d] + []), d);
    SplitField(w, a + [d] + (b + [d] + (p + [d] + [])), d);
  }

  /** A produced comment shows `Most likely match: **<bestMatch>**`,
      then the fixed table header, then the table. */
  lemma CommentShowsMatchAndTable(url: Option<string>, response: Identification)
    requires Comment(url, response).Some?
    ensures response.Ok?
    ensures IsSubstring(MatchLine(response.bestMatch) + Header + Rows(Top(response.results)),
                        Comment(url, response).value)
  {
    var body := MatchLine(response.bestMatch) + Header + Rows(Top(response.results));
    var text := Comment(url, response).value;
    assert text == Intro + body + Outro;
    assert text[|Intro|..|Intro| + |body|] == body;
    OccursAtIsSubstring(body, text, |Intro|);
  }
}
