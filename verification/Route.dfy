/** Decoding a request target into a typed key. */
module Routes {
  import opened Prelude
  import opened Text
  import Digests
  import NarUrls
  import StorePaths

  datatype Route = CacheInfo | Metrics | Narinfo(hash: StorePaths.Hash) | Nar(url: NarUrls.NarUrl)

  datatype Error = Relative | Unknown | Key(path: StorePaths.Error) | BadNar(nar: NarUrls.Error)

  const SUFFIX: string := ".narinfo"

  /** The target up to its query or fragment. */
  function PathOf(target: string): string {
    if target == "" || target[0] == '?' || target[0] == '#' then ""
    else [target[0]] + PathOf(target[1..])
  }

  function OfPath(path: string): Result<Route, Error> {
    match StripPrefix(path, "/")
    case None => Err(Relative)
    case Some(path) =>
      if path == "nix-cache-info" then Ok(CacheInfo)
      else if path == "metrics" then Ok(Metrics)
      else match StripPrefix(path, NarUrls.PREFIX)
        case Some(name) =>
          (match NarUrls.Parse(name)
           case Ok(url) => Ok(Nar(url))
           case Err(error) => Err(BadNar(error)))
        case None =>
          match StripSuffix(path, SUFFIX)
          case Some(key) =>
            (match StorePaths.ParseHash(key)
             case Ok(hash) => Ok(Narinfo(hash))
             case Err(error) => Err(Key(error)))
          case None => Err(Unknown)
  }

  function Resolve(target: string): Result<Route, Error> {
    OfPath(PathOf(target))
  }

  lemma {:induction false} PathOfPlain(target: string)
    requires '?' !in target && '#' !in target
    ensures PathOf(target) == target
  {
    if target != "" {
      PathOfPlain(target[1..]);
    }
  }

  /** What a target asks for is said before any query or fragment. */
  lemma {:induction false} PathOfExactly(target: string)
    ensures PathOf(target) <= target && '?' !in PathOf(target) && '#' !in PathOf(target)
    ensures PathOf(target) == target || target[|PathOf(target)|] == '?' || target[|PathOf(target)|] == '#'
  {
    if target != "" && target[0] != '?' && target[0] != '#' {
      PathOfExactly(target[1..]);
    }
  }

  /** The spellings of a route, one for all but an artifact, whose digest has several. */
  ghost predicate Spells(path: string, route: Route) {
    match route
    case CacheInfo => path == "/nix-cache-info"
    case Metrics => path == "/metrics"
    case Narinfo(hash) => path == "/" + StorePaths.ShowHash(hash) + ".narinfo"
    case Nar(url) => exists name: string :: path == "/nar/" + name && NarUrls.Parse(name) == Ok(url)
  }

  lemma HashExactly(key: string, hash: StorePaths.Hash)
    ensures StorePaths.ParseHash(key) == Ok(hash) <==> key == StorePaths.ShowHash(hash)
  {
    StorePaths.HashShape(hash);
    StorePaths.HashSpelling(key);
    hide StorePaths.ShowHash, StorePaths.ParseHash;
  }

  lemma FixedPaths()
    ensures OfPath("/nix-cache-info") == Ok(CacheInfo) && OfPath("/metrics") == Ok(Metrics)
  {
    hide NarUrls.Parse, StorePaths.ParseHash;
    assert "/nix-cache-info"[1..] == "nix-cache-info";
    assert "/metrics"[1..] == "metrics";
  }

  lemma NarPath(name: string)
    ensures OfPath("/nar/" + name)
         == match NarUrls.Parse(name)
            case Ok(url) => Ok(Nar(url))
            case Err(error) => Err(BadNar(error))
  {
    hide NarUrls.Parse, StorePaths.ParseHash;
    var path := "nar/" + name;
    assert "/nar/" + name == "/" + path && ("/" + path)[1..] == path && path[4..] == name;
    assert path[2] == 'r';
  }

  lemma KeyPath(hash: StorePaths.Hash)
    ensures OfPath("/" + StorePaths.ShowHash(hash) + ".narinfo") == Ok(Narinfo(hash))
  {
    StorePaths.HashShape(hash);
    hide StorePaths.ShowHash, StorePaths.ParseHash, NarUrls.Parse;
    var key := StorePaths.ShowHash(hash);
    var path := key + ".narinfo";
    assert "/" + key + ".narinfo" == "/" + path && ("/" + path)[1..] == path;
    assert path[32..] == ".narinfo" && path[..32] == key;
    assert key[3] in key && path[3] == key[3] && NarUrls.PREFIX[3] == '/';
  }

  lemma SpelledIsResolved(path: string, route: Route)
    requires Spells(path, route)
    ensures OfPath(path) == Ok(route)
  {
    hide OfPath, NarUrls.Parse, StorePaths.ShowHash;
    match route {
      case CacheInfo => FixedPaths();
      case Metrics => FixedPaths();
      case Narinfo(hash) => KeyPath(hash);
      case Nar(url) =>
        var name: string :| path == "/nar/" + name && NarUrls.Parse(name) == Ok(url);
        NarPath(name);
    }
  }

  lemma ResolvedIsSpelled(path: string)
    requires OfPath(path).Ok?
    ensures Spells(path, OfPath(path).value)
  {
    hide NarUrls.Parse, StorePaths.ParseHash, StorePaths.ShowHash;
    var rest := path[1..];
    assert path == "/" + rest;
    match OfPath(path).value {
      case CacheInfo => assert "/" + "nix-cache-info" == "/nix-cache-info";
      case Metrics => assert "/" + "metrics" == "/metrics";
      case Narinfo(hash) =>
        var key := rest[..|rest| - 8];
        HashExactly(key, hash);
        assert rest == key + ".narinfo";
        assert path == "/" + key + ".narinfo";
      case Nar(url) =>
        assert rest == "nar/" + rest[4..];
        assert path == "/nar/" + rest[4..];
    }
  }

  /** A target resolves to a route exactly when what stands before its query spells that route. */
  lemma ResolveExactly(target: string, route: Route)
    ensures Resolve(target) == Ok(route) <==> Spells(PathOf(target), route)
  {
    hide OfPath, PathOf, Spells;
    if Resolve(target) == Ok(route) {
      ResolvedIsSpelled(PathOf(target));
    }
    if Spells(PathOf(target), route) {
      SpelledIsResolved(PathOf(target), route);
    }
  }

  /** A target is unknown, as opposed to malformed, when it is absolute and like none of the routes. */
  lemma UnknownExactly(target: string)
    ensures var path := PathOf(target);
            Resolve(target) == Err(Unknown)
            <==> "/" <= path && path != "/nix-cache-info" && path != "/metrics" && !("/nar/" <= path)
                 && StripSuffix(path[1..], ".narinfo").None?
  {
    hide NarUrls.Parse, StorePaths.ParseHash, PathOf, StripSuffix;
    var path := PathOf(target);
    if "/" <= path {
      var rest := path[1..];
      assert path == "/" + rest;
      assert path == "/nix-cache-info" <==> rest == "nix-cache-info" by {
        assert "/nix-cache-info" == "/" + "nix-cache-info";
      }
      assert path == "/metrics" <==> rest == "metrics" by {
        assert "/metrics" == "/" + "metrics";
      }
      assert "/nar/" <= path <==> "nar/" <= rest by {
        assert "/nar/" == "/" + "nar/";
      }
    }
  }

  lemma NameIsPlain(url: NarUrls.NarUrl)
    ensures '?' !in NarUrls.Url(url) && '#' !in NarUrls.Url(url)
  {
    hide Digests.Base32Text;
    Digests.Base32TextShape(url.fileHash);
  }

  /** The `URL:` of a record, requested, names exactly the artifact the record names. */
  lemma UrlRoutesBack(url: NarUrls.NarUrl)
    ensures Resolve("/" + NarUrls.Url(url)) == Ok(Nar(url))
  {
    hide NarUrls.Name, NarUrls.Parse, PathOf;
    NameIsPlain(url);
    PathOfPlain("/" + NarUrls.Url(url));
    NarUrls.ParseOfName(url);
    var path := NarUrls.Url(url);
    assert path == NarUrls.PREFIX + NarUrls.Name(url);
    assert ("/" + path)[1..] == path && path[4..] == NarUrls.Name(url);
    assert path[0] == 'n' && path[1] == 'a' && path[2] == 'r';
  }

  lemma KeyRoutesBack(hash: StorePaths.Hash)
    ensures Resolve("/" + StorePaths.ShowHash(hash) + SUFFIX) == Ok(Narinfo(hash))
  {
    StorePaths.HashShape(hash);
    hide StorePaths.ShowHash, StorePaths.ParseHash, PathOf;
    var key := StorePaths.ShowHash(hash);
    var path := key + SUFFIX;
    assert '?' !in key && '#' !in key;
    assert '?' !in SUFFIX && '#' !in SUFFIX;
    PathOfPlain("/" + key + SUFFIX);
    assert "/" + key + SUFFIX == "/" + path;
    assert ("/" + path)[1..] == path;
    assert path[32..] == SUFFIX && path[..32] == key;
    assert !(NarUrls.PREFIX <= path) by {
      assert key[3] in key && path[3] == key[3] && NarUrls.PREFIX[3] == '/';
    }
  }
}
