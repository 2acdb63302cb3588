/** What `head` does with the request target before it looks at the file
    system: split off the query, map the path, parse the query into pairs, and
    pick a Content-Type from the path's extension. */
module Resource {
  import opened Wrappers
  import opened Strings
  import opened Files

  /** A request target split at '?': the path before it and, when there is a
      '?', the query after it. */
  datatype Target = Target(path: string, query: Option<string>)

  /** `query_uri.split("?")` with its length checked: no '?' gives the whole
      target as the path, one '?' gives path and query, more is invalid. */
  function SplitTarget(target: string): (r: Option<Target>)
    ensures r.None? <==> multiset(target)['?'] >= 2
    ensures r.Some? ==> '?' !in r.value.path
    ensures r.Some? && r.value.query.None? ==> r.value.path == target
    ensures r.Some? && r.value.query.Some? ==>
              '?' !in r.value.query.value && target == r.value.path + "?" + r.value.query.value
  {
    var uq := Split(target, '?');
    SplitCount(target, '?');
    SplitJoin(target, '?');
    assert |uq| == 2 ==> uq[1..] == [uq[1]];
    if |uq| == 1 then Some(Target(uq[0], None))
    else if |uq| == 2 then Some(Target(uq[0], Some(uq[1])))
    else None
  }

  /** The file a pre-query path names: exactly "/" names "index.html"; any
      other path loses all of its leading '/' characters. */
  function FilePath(uri: string): (path: string)
    ensures uri == "/" ==> path == "index.html"
    ensures uri != "/" ==> |path| <= |uri| && uri[|uri| - |path|..] == path
    ensures uri != "/" ==> path == [] || path[0] != '/'
    ensures uri != "/" ==> forall i :: 0 <= i < |uri| - |path| ==> uri[i] == '/'
  {
    if uri == "/" then "index.html" else TrimStartChar(uri, '/')
  }

  /** One query parameter: the text before and after its '='. */
  datatype Param = Param(key: string, value: string)

  /** A query piece is a pair when `split("=")` cuts it into exactly two parts. */
  predicate IsPair(piece: string) {
    |Split(piece, '=')| == 2
  }

  /** The pair a piece with exactly one '=' stands for. */
  function ParamOf(piece: string): (p: Param)
    requires IsPair(piece)
    ensures piece == p.key + "=" + p.value
    ensures '=' !in p.key && '=' !in p.value
  {
    var kv := Split(piece, '=');
    SplitJoin(piece, '=');
    assert kv[1..] == [kv[1]];
    Param(kv[0], kv[1])
  }

  /** The parameters of a query: its '&'-separated pieces, each of which must
      be a pair; one piece that is not makes the whole query invalid. */
  function QueryParams(query: string): (r: Option<seq<Param>>)
    ensures r.Some? <==> forall i :: 0 <= i < |Split(query, '&')| ==> IsPair(Split(query, '&')[i])
    ensures r.Some? ==> |r.value| == |Split(query, '&')|
    ensures r.Some? ==> forall i :: 0 <= i < |r.value| ==>
              Split(query, '&')[i] == r.value[i].key + "=" + r.value[i].value
  {
    var pieces := Split(query, '&');
    if forall i :: 0 <= i < |pieces| ==> IsPair(pieces[i])
    then Some(seq(|pieces|, i requires 0 <= i < |pieces| => ParamOf(pieces[i])))
    else None
  }

  /** The query loop of `head`: splits on '&', splits each piece on '=',
      collects the pairs in order and stops at the first piece that is not a pair. */
  method ParseQuery(query: string) returns (params: Option<seq<Param>>)
    ensures params == QueryParams(query)
  {
    var pieces := Split(query, '&');
    var pairs: seq<Param> := [];
    for i := 0 to |pieces|
      invariant |pairs| == i
      invariant forall j :: 0 <= j < i ==> IsPair(pieces[j]) && pairs[j] == ParamOf(pieces[j])
    {
      var q := Split(pieces[i], '=');
      if |q| != 2 {
        return None;
      }
      pairs := pairs + [Param(q[0], q[1])];
    }
    assert pairs == seq(|pieces|, i requires 0 <= i < |pieces| => ParamOf(pieces[i]));
    return Some(pairs);
  }

  /** The text of a query with the given parameters. */
  function QueryText(params: seq<Param>): string
  {
    Join(seq(|params|, i requires 0 <= i < |params| => params[i].key + "=" + params[i].value), '&')
  }

  /** Parameters whose keys and values hold neither '&' nor '=' are read back
      from their query text, in order. */
  lemma QueryRoundTrip(params: seq<Param>)
    requires params != []
    requires forall i :: 0 <= i < |params| ==>
               '&' !in params[i].key && '=' !in params[i].key && '&' !in params[i].value && '=' !in params[i].value
    ensures QueryParams(QueryText(params)) == Some(params)
  {
    var pieces := seq(|params|, i requires 0 <= i < |params| => params[i].key + "=" + params[i].value);
    JoinSplit(pieces, '&');
    assert Split(QueryText(params), '&') == pieces;
    forall i | 0 <= i < |params|
      ensures IsPair(pieces[i]) && ParamOf(pieces[i]) == params[i]
    {
      var kv := [params[i].key, params[i].value];
      assert kv[1..] == [params[i].value];
      assert pieces[i] == Join(kv, '=');
      JoinSplit(kv, '=');
    }
    assert seq(|pieces|, i requires 0 <= i < |pieces| => ParamOf(pieces[i])) == params;
  }

  /** An empty query, as a trailing '?' leaves, is not a list of pairs. */
  lemma EmptyQueryInvalid()
    ensures QueryParams("") == None
  {
    SplitWhole("", '&');
    SplitWhole("", '=');
    assert !IsPair(Split("", '&')[0]);
  }

  /** The last component `Path::file_name` reports: empty and "." components
      are skipped, and a path ending in ".." has no file name. */
  function LastName(parts: seq<string>): (r: Option<string>)
    ensures r.Some? ==> r.value in parts && r.value != [] && r.value != "." && r.value != ".."
  {
    if parts == [] then None
    else
      var last := parts[|parts| - 1];
      if last == [] || last == "." then LastName(parts[..|parts| - 1])
      else if last == ".." then None
      else Some(last)
  }

  /** `Path::file_name`: the last normal component of a '/'-separated path. */
  function FileName(path: string): (r: Option<string>)
    ensures r.Some? ==> '/' !in r.value && r.value != [] && r.value != "." && r.value != ".."
  {
    LastName(Split(path, '/'))
  }

  /** `Path::extension`: what follows the last '.' of the file name, unless the
      only '.' is the name's first character. */
  function Extension(path: string): (ext: Option<string>)
    ensures ext.Some? ==> '.' !in ext.value && '/' !in ext.value
  {
    match FileName(path)
    case None => None
    case Some(name) =>
      var parts := Split(name, '.');
      SplitJoin(name, '.');
      LastPieceIn(parts, '.');
      if |parts| == 1 || (|parts| == 2 && parts[0] == []) then None
      else Some(parts[|parts| - 1])
  }

  /** The characters of the last piece occur in the joined text. */
  lemma {:induction false} LastPieceIn(parts: seq<string>, sep: char)
    requires parts != []
    ensures forall c :: c in parts[|parts| - 1] ==> c in Join(parts, sep)
    decreases |parts|
  {
    if |parts| > 1 {
      LastPieceIn(parts[1..], sep);
    }
  }

  /** The Content-Type header `head` adds to a 200 response, chosen by the exact
      extension of the path. */
  function ContentType(path: string): seq<byte>
  {
    HeaderForExtension(Extension(path))
  }

  /** The `match` on the extension: html, png and ico, jpg and jpeg, txt, and
      everything else (no extension included). */
  function HeaderForExtension(ext: Option<string>): seq<byte>
  {
    if ext == Some("html") then Ascii("Content-Type: text/html\r\n")
    else if ext == Some("png") || ext == Some("ico") then Ascii("Content-Type: image/png\r\n")
    else if ext == Some("jpg") || ext == Some("jpeg") then Ascii("Content-Type: image/jpeg\r\n")
    else if ext == Some("txt") then Ascii("Content-Type: text/plain\r\n")
    else Ascii("Content-Type: application/octet-stream\r\n")
  }

  /** A file name `stem.ext` in a directory has extension `ext`, whatever dots
      the stem holds (a stem may even be "." when there is an extension). */
  lemma ExtensionOfName(dir: string, stem: string, ext: string)
    requires dir == [] || dir[|dir| - 1] == '/'
    requires stem != [] && '/' !in stem
    requires '/' !in ext && '.' !in ext
    requires !(stem == "." && ext == [])
    ensures Extension(dir + stem + "." + ext) == Some(ext)
  {
    var name := stem + "." + ext;
    assert name == stem + ['.'] + ext;
    assert '/' !in name;
    assert name != ".." by {
      assert |stem| == 1 && |ext| == 0 ==> stem == [name[0]] && |name| == 2;
    }
    NameIsLast(dir, name);
    SplitAround(stem, '.', ext);
    SplitWhole(ext, '.');
    var stemParts := Split(stem, '.');
    var parts := Split(name, '.');
    assert parts == stemParts + [ext];
    if |stemParts| == 1 {
      SplitJoin(stem, '.');
      assert stemParts == [stem];
      assert parts == [stem, ext];
    }
    assert parts[|parts| - 1] == ext;
    assert dir + stem + "." + ext == dir + name;
  }

  /** A name without a '.' after its first character has no extension. */
  lemma NoDotNoExtension(dir: string, name: string)
    requires dir == [] || dir[|dir| - 1] == '/'
    requires name != [] && '/' !in name && name != "." && name != ".."
    requires '.' !in name[1..]
    ensures Extension(dir + name) == None
  {
    NameIsLast(dir, name);
    if name[0] == '.' {
      assert name == [] + ['.'] + name[1..];
      SplitAround([], '.', name[1..]);
      SplitWhole(name[1..], '.');
      SplitWhole([], '.');
    } else {
      assert name == [name[0]] + name[1..];
      SplitWhole(name, '.');
    }
  }

  /** A trailing '/' or "/." does not change the file name: empty and "."
      components at the end are skipped. */
  lemma FileNameTrailing(p: string)
    ensures FileName(p + "/") == FileName(p)
    ensures FileName(p + "/.") == FileName(p)
  {
    TrailingPiece(p, "");
    assert p + "/" == p + ['/'] + "";
    TrailingPiece(p, ".");
    assert p + "/." == p + ['/'] + ".";
  }

  /** A last component that is empty or "." is skipped. */
  lemma TrailingPiece(p: string, last: string)
    requires last == [] || last == "."
    ensures FileName(p + ['/'] + last) == FileName(p)
  {
    var parts := Split(p, '/');
    SplitAround(p, '/', last);
    SplitWhole(last, '/');
    assert (parts + [last])[..|parts|] == parts;
  }

  /** The file name of `dir + name` is `name` when it is a normal component. */
  lemma NameIsLast(dir: string, name: string)
    requires dir == [] || dir[|dir| - 1] == '/'
    requires name != [] && '/' !in name && name != "." && name != ".."
    ensures FileName(dir + name) == Some(name)
  {
    SplitWhole(name, '/');
    if dir != [] {
      var d := dir[..|dir| - 1];
      assert dir + name == d + ['/'] + name;
      SplitAround(d, '/', name);
    } else {
      assert dir + name == name;
    }
  }
}
