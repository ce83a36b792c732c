/** The catch-all handler mounted at `/` (src/main.py,
    `FallbackStaticFiles.get_response`).  It authorises, passes through what
    the static-file handler finds, and otherwise branches three ways on the
    resolved path: a directory gets a generated listing, a missing path 404,
    anything else the file itself. */
module Fallback {
  import opened Http
  import opened Paths
  import opened Strings
  import opened Escaping
  import Authorisation

  /** What the static-file handler found and answered with. */
  datatype StaticResponse = StaticResponse(path: Path)

  /** One listing row: link target, displayed name, the "View Raw" link (empty
      for directories), modification time and size. */
  datatype Row = Row(link: string, name: string, raw: string, modified: string, size: string)

  datatype Response =
    | Static(found: StaticResponse)
    | FileResponse(path: Path)
    | HtmlListing(directory: string, rows: seq<Row>)

  /** `"./" + str(_p)` for the child `name` of the relative directory `rel`. */
  function ChildLocation(rel: Path, name: string): string
  {
    "./" + PathString(rel + [name])
  }

  /** The raw-view link; the location is inserted without escaping. */
  function RawLink(location: string): string
  {
    " (<a href='/_special/view_plain?path=" + location + "'>View Raw</a>)"
  }

  /** The row for child `name` of directory `dir`, whose path relative to the
      working directory is `rel`. */
  function MakeRow(fs: FileSystem, dir: Path, rel: Path, name: string): (r: Row)
    requires dir + [name] in fs
    ensures '<' !in r.link && '>' !in r.link && '<' !in r.name && '>' !in r.name
    ensures r.raw != "" <==> !fs[dir + [name]].Dir?
    ensures r.size == fs[dir + [name]].size && r.modified == fs[dir + [name]].modified
  {
    var child := fs[dir + [name]];
    var location := ChildLocation(rel, name);
    Row(Escape(location), Escape(name), if child.Dir? then "" else RawLink(location), child.modified, child.size)
  }

  /** The rows of a listing: one per child, in `iterdir` order. */
  function ListingRows(fs: FileSystem, dir: Path, rel: Path): (rows: seq<Row>)
    requires WellFormed(fs) && IsDir(fs, dir)
    ensures |rows| == |fs[dir].entries|
  {
    var entries := fs[dir].entries;
    seq(|entries|, k requires 0 <= k < |entries| => MakeRow(fs, dir, rel, entries[k]))
  }

  /** Row `k` of a listing describes child `k`: its link and its name are
      escaped, it has a "View Raw" link, to the unescaped location, exactly
      when the child is not a directory, and it shows the child's size and
      modification time. */
  lemma ListingRowDescribesChild(fs: FileSystem, dir: Path, rel: Path, k: nat)
    requires WellFormed(fs) && IsDir(fs, dir)
    requires k < |fs[dir].entries|
    ensures var row, name := ListingRows(fs, dir, rel)[k], fs[dir].entries[k];
      && row.link == Escape(ChildLocation(rel, name))
      && row.name == Escape(name)
      && (row.raw != "" <==> !IsDir(fs, dir + [name]))
      && (row.raw != "" ==> row.raw == RawLink(ChildLocation(rel, name)))
      && row.size == fs[dir + [name]].size
      && row.modified == fs[dir + [name]].modified
  {
  }

  /** The 404 raised for a missing path, naming it. */
  function Missing(rel: Path): (e: HttpError)
    ensures e.status == 404 && e.headers == []
    ensures e.detail.Some? && Occurs(PathString(rel), e.detail.value)
  {
    OccursBetween(PathString(rel), "File '", "' does not exist.");
    HttpError(404, Some("File '" + PathString(rel) + "' does not exist."), [])
  }

  /** The `except` branch, run only when the static handler raised.  A path
      outside the working directory makes `relative_to` raise `ValueError`,
      which nothing catches. */
  function Fallback(fs: FileSystem, cwd: Path, resolved: Path): (r: Outcome<Response>)
    requires WellFormed(fs)
    ensures r.Crash? <==> !IsRelativeTo(resolved, cwd)
    ensures r.Crash? ==> r.exception == "ValueError"
    ensures r.Raise? <==> IsRelativeTo(resolved, cwd) && resolved !in fs
    ensures r.Raise? ==> r.error == Missing(RelativeTo(resolved, cwd))
    ensures r.Respond? && r.response.HtmlListing? <==> IsRelativeTo(resolved, cwd) && IsDir(fs, resolved)
    ensures r.Respond? && r.response.HtmlListing? ==>
      r.response.directory == PathString(RelativeTo(resolved, cwd))
      && r.response.rows == ListingRows(fs, resolved, RelativeTo(resolved, cwd))
    ensures r.Respond? && r.response.FileResponse? <==> IsRelativeTo(resolved, cwd) && resolved in fs && !IsDir(fs, resolved)
    ensures r.Respond? && r.response.FileResponse? ==> r.response.path == RelativeTo(resolved, cwd)
    ensures r.Respond? ==> !r.response.Static?
  {
    if !IsRelativeTo(resolved, cwd) then Crash("ValueError")
    else
      var rel := RelativeTo(resolved, cwd);
      if IsDir(fs, resolved) then Respond(HtmlListing(PathString(rel), ListingRows(fs, resolved, rel)))
      else if resolved !in fs then Raise(Missing(rel))
      else Respond(FileResponse(rel))
  }

  /** The whole handler: authorisation first, then the static lookup, then
      the fallback. */
  function Route(cred: Authorisation.Credentials, pam: Authorisation.PamResult, env: Authorisation.Environment,
                 lookup: Option<StaticResponse>, fs: FileSystem, cwd: Path, resolved: Path): (r: Outcome<Response>)
    requires WellFormed(fs)
    ensures Authorisation.Authorise(cred, pam, env).Reject? ==> r == Raise(Authorisation.Authorise(cred, pam, env).error)
    ensures Authorisation.Authorise(cred, pam, env) == Authorisation.Allow && lookup.Some? ==> r == Respond(Static(lookup.value))
    ensures Authorisation.Authorise(cred, pam, env) == Authorisation.Allow && lookup.None? ==> r == Fallback(fs, cwd, resolved)
  {
    match Authorisation.Authorise(cred, pam, env)
    case Reject(e) => Raise(e)
    case Allow =>
      match lookup
      case Some(found) => Respond(Static(found))
      case None => Fallback(fs, cwd, resolved)
  }

  /** A rejected request never reaches the filesystem: the answer is the same
      whatever the static handler and the filesystem would have said. */
  lemma AuthorisationComesFirst(cred: Authorisation.Credentials, pam: Authorisation.PamResult,
                                env: Authorisation.Environment,
                                lookup1: Option<StaticResponse>, fs1: FileSystem, resolved1: Path,
                                lookup2: Option<StaticResponse>, fs2: FileSystem, resolved2: Path, cwd: Path)
    requires WellFormed(fs1) && WellFormed(fs2)
    requires !Authorisation.Accepted(cred, pam, env)
    ensures Route(cred, pam, env, lookup1, fs1, cwd, resolved1) == Route(cred, pam, env, lookup2, fs2, cwd, resolved2)
    ensures Route(cred, pam, env, lookup1, fs1, cwd, resolved1).Raise?
    ensures Route(cred, pam, env, lookup1, fs1, cwd, resolved1).error.status in {401, 501}
  {
  }

  /** The `for` loop over `iterdir()`: one row appended per child. */
  method BuildRows(fs: FileSystem, dir: Path, rel: Path) returns (rows: seq<Row>)
    requires WellFormed(fs) && IsDir(fs, dir)
    ensures rows == ListingRows(fs, dir, rel)
  {
    var entries := fs[dir].entries;
    ghost var expected := ListingRows(fs, dir, rel);
    rows := [];
    for i := 0 to |entries|
      invariant rows == expected[..i]
    {
      var child := dir + [entries[i]];
      var location := ChildLocation(rel, entries[i]);
      var raw := "";
      if !fs[child].Dir? {
        raw := RawLink(location);
      }
      var row := Row(Escape(location), Escape(entries[i]), raw, fs[child].modified, fs[child].size);
      assert row == expected[i];
      PrefixGrows(expected, i);
      rows := rows + [row];
    }
    assert expected[..|entries|] == expected;
  }

  lemma PrefixGrows<T>(s: seq<T>, i: nat)
    requires i < |s|
    ensures s[..i + 1] == s[..i] + [s[i]]
  {
  }

  /** The handler as the server runs it. */
  method GetResponse(cred: Authorisation.Credentials, pam: Authorisation.PamResult, env: Authorisation.Environment,
                     lookup: Option<StaticResponse>, fs: FileSystem, cwd: Path, resolved: Path)
    returns (out: Outcome<Response>)
    requires WellFormed(fs)
    ensures out == Route(cred, pam, env, lookup, fs, cwd, resolved)
  {
    var decision := Authorisation.Authorise(cred, pam, env);
    if decision.Reject? {
      return Raise(decision.error);
    }
    if lookup.Some? {
      return Respond(Static(lookup.value));
    }
    if !IsRelativeTo(resolved, cwd) {
      return Crash("ValueError");
    }
    var rel := resolved[|cwd|..];
    if resolved in fs && fs[resolved].Dir? {
      var rows := BuildRows(fs, resolved, rel);
      return Respond(HtmlListing(PathString(rel), rows));
    }
    if resolved !in fs {
      return Raise(Missing(rel));
    }
    return Respond(FileResponse(rel));
  }

  // Rendering of the listing page.

  const Style := "<style>table tr { white-space: nowrap; }"
    + "td.file-size { text-align: right; padding-left: 1em; } "
    + "td.display-name { padding-left: 1em; padding-right: 1em; }</style>"

  /** One table row of the listing; every field of the row shows in it. */
  function RenderRow(row: Row): (r: string)
    ensures Occurs(row.link, r) && Occurs(row.name, r) && Occurs(row.raw, r)
    ensures Occurs(row.modified, r) && Occurs(row.size, r)
  {
    var head := "<tr><td><a href='";
    var afterSize := "</td></tr>";
    var beforeSize := head + row.link + "' class='display-name'>" + row.name + "</a>" + row.raw
      + "</td><td>last modified: " + row.modified + "</td><td class='file-size'>Size: <code>";
    var r := beforeSize + row.size + afterSize;
    OccursBetween(row.size, beforeSize, afterSize);
    RowFieldsOccur(row, head, "' class='display-name'>", "</a>", "</td><td>last modified: ",
      "</td><td class='file-size'>Size: <code>", afterSize);
    r
  }

  /** In text laid out as `head link a name b raw c modified d size tail`,
      the four fields before the size occur. */
  lemma RowFieldsOccur(row: Row, head: string, a: string, b: string, c: string, d: string, tail: string)
    ensures var r := head + row.link + a + row.name + b + row.raw + c + row.modified + d + row.size + tail;
      Occurs(row.link, r) && Occurs(row.name, r) && Occurs(row.raw, r) && Occurs(row.modified, r)
  {
    var r := head + row.link + a + row.name + b + row.raw + c + row.modified + d + row.size + tail;
    var i := |head|;
    assert r[i..i + |row.link|] == row.link;
    assert OccursAt(row.link, r, i);
    i := i + |row.link| + |a|;
    assert r[i..i + |row.name|] == row.name;
    assert OccursAt(row.name, r, i);
    i := i + |row.name| + |b|;
    assert r[i..i + |row.raw|] == row.raw;
    assert OccursAt(row.raw, r, i);
    i := i + |row.raw| + |c|;
    assert r[i..i + |row.modified|] == row.modified;
    assert OccursAt(row.modified, r, i);
  }

  /** `"\n".join(lines)`: every line occurs in the text, and splitting it on
      newlines gives the lines back when none of them holds a newline. */
  function JoinLines(lines: seq<string>): (r: string)
    ensures forall k :: 0 <= k < |lines| ==> Occurs(lines[k], r)
    ensures lines != [] && NoSeparator(lines, '\n') ==> Split(r, '\n') == lines
  {
    if lines == [] then ""
    else
      var r := Join(lines, '\n');
      assert forall k | 0 <= k < |lines| :: Occurs(lines[k], r) by {
        forall k | 0 <= k < |lines| {
          OccursInJoin(lines, '\n', k);
        }
      }
      assert NoSeparator(lines, '\n') ==> Split(r, '\n') == lines by {
        if NoSeparator(lines, '\n') {
          SplitJoin(lines, '\n');
        }
      }
      r
  }

  function RenderedRows(rows: seq<Row>): seq<string>
  {
    seq(|rows|, k requires 0 <= k < |rows| => RenderRow(rows[k]))
  }

  /** `base_html` up to the rows, with the directory and the style filled in. */
  function PageHead(directory: string): string
  {
    "\n<!DOCTYPE html>\n<html lang=\"en\">\n<head>\n    <meta charset=\"UTF-8\">\n    <title>Index of "
    + directory + "</title>" + Style + "\n</head>\n<body><h1>Files in " + directory + ":</h1>\n<table>"
  }

  /** `base_html` after the rows. */
  const PageFoot := "</table>\n</body>\n</html>\n"

  /** The HTML page of a listing. */
  function RenderListing(directory: string, rows: seq<Row>): string
  {
    PageHead(directory) + JoinLines(RenderedRows(rows)) + PageFoot
  }

  /** Every row's markup appears in the page. */
  lemma RowsAppearInPage(directory: string, rows: seq<Row>, k: nat)
    requires k < |rows|
    ensures Occurs(RenderRow(rows[k]), RenderListing(directory, rows))
  {
    var lines := RenderedRows(rows);
    OccursWithin(lines[k], JoinLines(lines), PageHead(directory), PageFoot);
  }

  /** No row of a listing carries a raw `<` or `>` in its link target or
      displayed name, whatever the file names are. */
  lemma ListedNamesHaveNoMarkup(fs: FileSystem, dir: Path, rel: Path, k: nat)
    requires WellFormed(fs) && IsDir(fs, dir)
    requires k < |fs[dir].entries|
    ensures '<' !in ListingRows(fs, dir, rel)[k].name && '>' !in ListingRows(fs, dir, rel)[k].name
    ensures '<' !in ListingRows(fs, dir, rel)[k].link && '>' !in ListingRows(fs, dir, rel)[k].link
    ensures AmpersandsAreEntities(ListingRows(fs, dir, rel)[k].name)
  {
    EscapedAmpersandsStartEntity(fs[dir].entries[k]);
  }
}
