/** htmlToReturn: from the request target to the body text, through the
    normalised path under the document root and the decision between a
    direct file, a directory's index file, a generated listing and the
    not-found page. */
module Resolver {
  import opened Wrappers
  import opened JavaString
  import opened Files
  import opened Request
  import opened Pages

  /** The target with the document root made explicit: a target that starts
      with neither "/webroot" nor "webroot" gets "webroot" in front; any other
      loses its first "/" (replaceFirst("/", "")), wherever that is. */
  function Normalize(target: string): (path: string)
    ensures StartsWith(path, Root)
  {
    if !StartsWith(target, "/webroot") && !StartsWith(target, "webroot") then "webroot" + target
    else
      NormalizeKeepsRoot(target);
      RemoveFirst(target, '/')
  }

  lemma NormalizeKeepsRoot(target: string)
    requires StartsWith(target, "/webroot") || StartsWith(target, "webroot")
    ensures StartsWith(RemoveFirst(target, '/'), Root)
  {
    RemoveFirstSpec(target, '/');
    if StartsWith(target, "/webroot") {
      assert IndexOf(target, '/') == 0;
      assert target[1..][..7] == target[1..8];
    } else if '/' in target {
      var i := IndexOf(target, '/');
      assert target[..7] == Root;
      assert (target[..i] + target[i + 1..])[..7] == target[..7];
    }
  }

  /** Normalisation changes nothing but what it says: either "webroot" is
      prepended, or exactly the first "/" is removed (nothing at all if the
      target has none). */
  lemma NormalizeSpec(target: string)
    ensures !StartsWith(target, "/webroot") && !StartsWith(target, "webroot")
            ==> Normalize(target) == Root + target
    ensures (StartsWith(target, "/webroot") || StartsWith(target, "webroot")) && '/' in target
            ==> Normalize(target) == target[..IndexOf(target, '/')] + target[IndexOf(target, '/') + 1..]
    ensures (StartsWith(target, "/webroot") || StartsWith(target, "webroot")) && '/' !in target
            ==> Normalize(target) == target
    ensures StartsWith(target, "/webroot") ==> Normalize(target) == target[1..]
  {
    if StartsWith(target, "/webroot") {
      assert target[0] == '/';
      assert Normalize(target) == target[1..];
      assert IndexOf(target, '/') == 0;
      assert target[..0] + target[1..] == target[1..];
    } else if StartsWith(target, "webroot") {
      RemoveFirstSpec(target, '/');
    }
  }

  /** A path the resolver hands straight back without looking at the disk. */
  predicate IsDirectTarget(path: string) {
    EndsWith(path, ".html") || EndsWith(path, ".txt")
  }

  /** Which of the four outcomes of htmlToReturn a normalised path meets. */
  datatype Resolution = DirectFile | IndexFile(file: string) | Listing(dir: string) | NotFound

  function Resolve(fs: FileSystem, path: string): Resolution {
    if !EndsWith(path, ".html") && !EndsWith(path, ".txt") then
      if Exists(fs, path + "/index.html") then IndexFile(path + "/index.html")
      else if IsDirectory(fs, path) then Listing(path)
      else NotFound
    else DirectFile
  }

  /** The string htmlToReturn returns for a target; None is Java's null. */
  function ResolvedBody(fs: FileSystem, target: string): Option<string> {
    match Resolve(fs, Normalize(target))
    case DirectFile => None
    case IndexFile(file) => Some(ReadAll(fs, file))
    case Listing(dir) => Some(DirectoryListing(fs, dir, target))
    case NotFound => Some(ErrorBuilder(target))
  }

  /** htmlToReturn on a whole header message. Only the second token of the
      first line is used; a line with fewer tokens fails. */
  method HtmlToReturn(fs: FileSystem, message: string) returns (file: Result<Option<string>, ParseError>)
    ensures |RequestTokens(message)| < 2 ==> file == Err(MalformedRequest(|RequestTokens(message)|))
    ensures |RequestTokens(message)| >= 2 ==> file == Ok(ResolvedBody(fs, RequestTokens(message)[1]))
  {
    var firstLineBroken := Tokens(FirstLine(message));
    if |firstLineBroken| < 2 {
      return Err(MalformedRequest(|firstLineBroken|));
    }
    var requestHTML := Normalize(firstLineBroken[1]);
    match Resolve(fs, requestHTML)
    case IndexFile(index) =>
      file := Ok(Some(ReadAll(fs, index)));
    case Listing(dir) =>
      var listing := DirectoryBuilder(fs, dir, firstLineBroken[1]);
      file := Ok(Some(listing));
    case NotFound =>
      file := Ok(Some(ErrorBuilder(firstLineBroken[1])));
    case DirectFile =>
      file := Ok(None);
  }

  /** A normalised path ending in ".html" or ".txt" yields null, and exactly
      those do; for them the file system is never consulted. */
  lemma DirectTargets(fs: FileSystem, other: FileSystem, target: string)
    ensures ResolvedBody(fs, target) == None <==> IsDirectTarget(Normalize(target))
    ensures IsDirectTarget(Normalize(target)) ==> ResolvedBody(other, target) == None
  {
  }

  /** Every other path is decided in a fixed order: an existing index file
      first, then a directory (listed), and otherwise the not-found page. */
  lemma ResolutionOrder(fs: FileSystem, target: string)
    requires !IsDirectTarget(Normalize(target))
    ensures var path := Normalize(target);
      && (Exists(fs, path + "/index.html") ==> ResolvedBody(fs, target) == Some(ReadAll(fs, path + "/index.html")))
      && (!Exists(fs, path + "/index.html") && IsDirectory(fs, path)
          ==> ResolvedBody(fs, target) == Some(DirectoryListing(fs, path, target)))
      && (!Exists(fs, path + "/index.html") && !IsDirectory(fs, path)
          ==> ResolvedBody(fs, target) == Some(ErrorBuilder(target)))
  {
  }

  /** Two file systems that give the same answers about the normalised path
      and its index file give the same body: nothing else is read. */
  lemma ResolutionFrame(fs: FileSystem, other: FileSystem, target: string)
    requires var path := Normalize(target);
      && (Exists(fs, path + "/index.html") <==> Exists(other, path + "/index.html"))
      && ReadAll(fs, path + "/index.html") == ReadAll(other, path + "/index.html")
      && (IsDirectory(fs, path) <==> IsDirectory(other, path))
      && Entries(fs, path) == Entries(other, path)
    ensures ResolvedBody(fs, target) == ResolvedBody(other, target)
  {
  }

  /** Every path the resolver consults lies under the document root by name;
      a ".." segment is kept as it is, so this is a naming convention and no
      containment check. */
  lemma ResolvedUnderRoot(fs: FileSystem, target: string)
    ensures Resolve(fs, Normalize(target)).IndexFile? ==> StartsWith(Resolve(fs, Normalize(target)).file, Root)
    ensures Resolve(fs, Normalize(target)).Listing? ==> StartsWith(Resolve(fs, Normalize(target)).dir, Root)
    ensures Normalize("/../" + target) == "webroot/../" + target
  {
    var path := Normalize(target);
    assert (path + "/index.html")[..7] == path[..7];
    assert !StartsWith("/../" + target, "/webroot") by {
      assert ("/../" + target)[1] == '.';
    }
    assert !StartsWith("/../" + target, "webroot") by {
      assert ("/../" + target)[0] == '/';
    }
  }
}
