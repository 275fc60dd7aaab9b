/**
 * The URL list and the names derived from each URL: the line filter of
 * `MainWindow.on_open_file`, the filename rule of `populate_table`, and
 * `os.path.join` as `_start_next` uses it for the fallback destination.
 */
module UrlList {
  import opened Text

  /** `[line.strip() for line in f if line.strip()]` over the lines of the file. */
  function ParseUrlList(lines: seq<string>): seq<string> {
    if lines == [] then []
    else
      var s := Strip(lines[0]);
      (if s != [] then [s] else []) + ParseUrlList(lines[1..])
  }

  /** At most one URL per line, each non-empty and already stripped. */
  lemma {:induction false} ParseUrlListClean(lines: seq<string>)
    ensures var urls := ParseUrlList(lines);
            |urls| <= |lines| && forall u :: u in urls ==> u != [] && Strip(u) == u
  {
    if lines != [] {
      ParseUrlListClean(lines[1..]);
      StripIdempotent(lines[0]);
    }
  }

  /** A URL is kept exactly when some line strips to it. */
  lemma {:induction false} ParseUrlListMembers(lines: seq<string>, u: string)
    ensures u in ParseUrlList(lines) <==> u != [] && exists l :: l in lines && Strip(l) == u
  {
    if lines != [] {
      ParseUrlListMembers(lines[1..], u);
      if u != [] && Strip(lines[0]) != u {
        if exists l :: l in lines && Strip(l) == u {
          var l :| l in lines && Strip(l) == u;
          assert l in lines[1..];
        }
      }
    }
  }

  /** The filter keeps the file's order: the lines of a concatenation give the concatenated lists. */
  lemma {:induction false} ParseUrlListConcat(a: seq<string>, b: seq<string>)
    ensures ParseUrlList(a + b) == ParseUrlList(a) + ParseUrlList(b)
  {
    if a == [] {
      assert a + b == b;
    } else {
      assert (a + b)[1..] == a[1..] + b;
      ParseUrlListConcat(a[1..], b);
    }
  }

  /** A whitespace-only line contributes nothing; any other line contributes its stripped text. */
  lemma ParseUrlListLine(line: string)
    ensures ParseUrlList([line]) == if AllSpace(line) then [] else [Strip(line)]
  {
    StripSpec(line);
    assert [line][1..] == [];
  }

  /** `os.path.basename`: the text after the last `/` of a path. */
  function Basename(path: string): string {
    if path == [] || path[|path| - 1] == '/' then []
    else Basename(path[..|path| - 1]) + [path[|path| - 1]]
  }

  /** The basename is the longest suffix of the path free of `/`: it is a suffix, holds no `/`, and a `/` (or the start) precedes it. */
  lemma {:induction false} BasenameShape(path: string)
    ensures var r := Basename(path);
            |r| <= |path| && r == path[|path| - |r|..]
            && '/' !in r
            && (|r| == |path| || path[|path| - |r| - 1] == '/')
    decreases |path|
  {
    if path != [] && path[|path| - 1] != '/' {
      var init := path[..|path| - 1];
      BasenameShape(init);
      var b := Basename(init);
      assert init[|init| - |b|..] + [path[|path| - 1]] == path[|path| - |b| - 1..];
    }
  }

  /** `os.path.basename(urlparse(url).path) or url`, the path being given. */
  function Filename(url: string, path: string): string {
    var b := Basename(path);
    if b != [] then b else url
  }

  /** The filename is the URL when the path has no basename; otherwise it is the path's last component. */
  lemma FilenameShape(url: string, path: string)
    ensures var fn := Filename(url, path);
            (Basename(path) == [] ==> fn == url)
            && (Basename(path) != [] ==> '/' !in fn && |fn| <= |path| && fn == path[|path| - |fn|..]
                                         && (|fn| == |path| || path[|path| - |fn| - 1] == '/'))
            && (url != [] ==> fn != [])
  {
    BasenameShape(path);
  }

  /** `os.path.join(dir, name)` for one component (POSIX rules). */
  function Join(dir: string, name: string): string {
    if name != [] && name[0] == '/' then name
    else if dir == [] || dir[|dir| - 1] == '/' then dir + name
    else dir + "/" + name
  }

  /** A path that ends in a separator, followed by a name without one, has that name as its basename. */
  lemma {:induction false} BasenameAfterSeparator(prefix: string, name: string)
    requires prefix == [] || prefix[|prefix| - 1] == '/'
    requires '/' !in name
    ensures Basename(prefix + name) == name
  {
    if name == [] {
      assert prefix + name == prefix;
    } else {
      var init := name[..|name| - 1];
      assert (prefix + name)[..|prefix + name| - 1] == prefix + init;
      BasenameAfterSeparator(prefix, init);
      assert init + [name[|name| - 1]] == name;
    }
  }

  /** The fallback destination `join(dir, filename)` names the item's file: its basename is the filename. */
  lemma JoinBasename(dir: string, name: string)
    requires '/' !in name
    ensures Basename(Join(dir, name)) == name
  {
    if dir == [] || dir[|dir| - 1] == '/' {
      BasenameAfterSeparator(dir, name);
    } else {
      assert dir + "/" + name == (dir + "/") + name;
      BasenameAfterSeparator(dir + "/", name);
    }
  }
}
