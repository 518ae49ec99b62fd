/**
 docker_repository_name_formatter.go: reading an image reference and printing it as a rootfs URL;
 app_examiner_command_factory.go: showing a rootfs URL as an image again.
 */
module Docker {
  import opened Text

  const DOCKER_INDEX_SERVER := "docker.io"

  datatype Image = Image(index: string, remote: string, tag: string)

  /** IndexPanic: the slice of name parts is read past its end. */
  datatype Reference = Parsed(image: Image) | InvalidName(remote: string) | HasScheme(uri: string) | IndexPanic

  predicate Contains(s: string, sub: string) {
    HasPrefix(s, sub) || (s != "" && Contains(s[1..], sub))
  }

  /** strings.SplitN(s, "/", 2) */
  function SplitFirst(s: string): (parts: seq<string>)
    ensures |parts| == 1 || |parts| == 2
    ensures |parts| == 1 ==> parts == [s] && '/' !in s
    ensures |parts| == 2 ==> s == parts[0] + "/" + parts[1] && '/' !in parts[0]
  {
    if s == "" then [s]
    else if s[0] == '/' then ["", s[1..]]
    else
      var rest := SplitFirst(s[1..]);
      if |rest| == 1 then [s] else [[s[0]] + rest[0], rest[1]]
  }

  predicate OfficialRegistry(parts: seq<string>)
    requires parts != []
  {
    || |parts| == 1
    || parts[0] == DOCKER_INDEX_SERVER
    || ('.' !in parts[0] && ':' !in parts[0] && parts[0] != "localhost")
  }

  /** parseDockerRepositoryTag */
  function ParseTag(remote: string): (string, string) {
    var n := LastIndex(remote, ':');
    if n < 0 then (remote, "latest")
    else if '/' !in remote[n + 1..] then (remote[..n], remote[n + 1..])
    else (remote, "")
  }

  function WithLibrary(remote: string): string {
    if '/' in remote then remote else "library/" + remote
  }

  /** Index and tagged remote name of a reference other than bare docker.io. */
  function Names(uri: string): (string, string) {
    var parts := SplitFirst(uri);
    if |parts| == 1 then ("", WithLibrary(uri))
    else if parts[0] == DOCKER_INDEX_SERVER then (DOCKER_INDEX_SERVER, WithLibrary(parts[1]))
    else if OfficialRegistry(parts) then ("", uri)
    else (parts[0], parts[1])
  }

  /** What parseDockerRepoUrl answers, for a given registry name check. */
  function ParseReference(uri: string, accepts: string -> bool): Reference {
    if uri == DOCKER_INDEX_SERVER then IndexPanic
    else
      var (index, named) := Names(uri);
      var (remote, tag) := ParseTag(named);
      if accepts(remote) then Parsed(Image(index, remote, tag)) else InvalidName(remote)
  }

  /** The host part of parseDockerRepoUrl, with its named results assigned branch by branch. */
  method ResolveNames(uri: string) returns (indexName: string, remoteName: string, panics: bool)
    ensures panics <==> uri == DOCKER_INDEX_SERVER
    ensures !panics ==> (indexName, remoteName) == Names(uri)
  {
    panics := false;
    var nameParts := SplitFirst(uri);
    if OfficialRegistry(nameParts) {
      indexName := "";
      remoteName := uri;
      if nameParts[0] == DOCKER_INDEX_SERVER {
        indexName := DOCKER_INDEX_SERVER;
        if |nameParts| < 2 {
          panics := true;
          return;
        }
        remoteName := nameParts[1];
      }
      if '/' !in remoteName {
        remoteName := "library/" + remoteName;
      }
    } else {
      indexName := nameParts[0];
      remoteName := nameParts[1];
    }
  }

  /** parseDockerRepoUrl */
  method ParseDockerRepoUrl(uri: string, accepts: string -> bool) returns (r: Reference)
    ensures r == ParseReference(uri, accepts)
  {
    var indexName, remoteName, panics := ResolveNames(uri);
    if panics {
      return IndexPanic;
    }
    var (name, tag) := ParseTag(remoteName);
    if !accepts(name) {
      return InvalidName(name);
    }
    return Parsed(Image(indexName, name, tag));
  }

  /** url.URL{Scheme, Path, Fragment}.String() for parts that need no escaping. */
  function PrintUrl(image: Image): string {
    "docker://" + image.index + "/" + image.remote + if image.tag == "" then "" else "#" + image.tag
  }

  /** convertDockerURI: a reference with a scheme is refused, a parsed one printed. */
  function ConvertUri(uri: string, accepts: string -> bool): (Reference, string) {
    if Contains(uri, "://") then (HasScheme(uri), "")
    else match ParseReference(uri, accepts)
      case Parsed(image) => (Parsed(image), PrintUrl(image))
      case failure => (failure, "")
  }

  // ---------- the status screen ----------

  /** strings.Replace(s, prefix, "", 1) guarded by strings.HasPrefix(s, prefix) */
  function StripPrefix(s: string, prefix: string): string {
    if HasPrefix(s, prefix) then s[|prefix|..] else s
  }

  function HashToColon(s: string): string {
    var n := LastIndex(s, '#');
    if n == -1 then s else s[..n] + ":" + s[n + 1..]
  }

  /** What the status screen shows for a rootfs that begins with docker://. */
  function ShowImage(rootFS: string): string {
    HashToColon(StripPrefix(StripPrefix(StripPrefix(rootFS, "docker://"), "/"), "library/"))
  }

  /** The image rendering of printAppInfo: one variable rewritten step by step. */
  method RenderImage(rootFS: string) returns (image: string)
    requires HasPrefix(rootFS, "docker://")
    ensures image == ShowImage(rootFS)
  {
    image := rootFS[|"docker://"|..];
    if HasPrefix(image, "/") {
      image := image[1..];
    }
    if HasPrefix(image, "library/") {
      image := image[|"library/"|..];
    }
    var hashIndex := LastIndex(image, '#');
    if hashIndex != -1 {
      image := image[..hashIndex] + ":" + image[hashIndex + 1..];
    }
  }

  // ---------- the round trip ----------

  /** The registry's name check lets through only these characters. */
  predicate NameChar(c: char) {
    'a' <= c <= 'z' || '0' <= c <= '9' || c in "._-/"
  }

  ghost predicate NameCheck(accepts: string -> bool) {
    forall s, i :: accepts(s) && 0 <= i < |s| ==> NameChar(s[i])
  }

  /** Characters that neither the path nor the fragment of a URL escapes; `#` is not among them. */
  predicate UrlPlain(c: char) {
    'a' <= c <= 'z' || 'A' <= c <= 'Z' || '0' <= c <= '9' || c in "-_.~$&+:=@"
  }

  ghost predicate NeedsNoEscape(image: Image) {
    && (forall i :: 0 <= i < |image.index| ==> UrlPlain(image.index[i]))
    && (forall i :: 0 <= i < |image.tag| ==> UrlPlain(image.tag[i]))
  }

  /** library/x/y... */
  predicate NestedLibrary(remote: string) {
    HasPrefix(remote, "library/") && '/' in remote[|"library/"|..]
  }

  predicate HostLike(host: string) {
    '.' in host || ':' in host || host == "localhost"
  }

  /** What the parser guarantees of the parts of an accepted reference. */
  ghost predicate WellFormed(image: Image) {
    && '/' !in image.tag && ':' !in image.tag
    && ':' !in image.remote && '#' !in image.remote
    && '/' !in image.index
    && (image.index == "" ==> '/' in image.remote && !HostLike(SplitFirst(image.remote)[0]))
    && (image.index != "" ==> HostLike(image.index))
    && (image.index == DOCKER_INDEX_SERVER ==> '/' in image.remote)
  }

  lemma {:induction false} SplitFirstAt(a: string, b: string)
    requires '/' !in a
    ensures SplitFirst(a + "/" + b) == [a, b]
  {
    var s := a + "/" + b;
    if a == "" {
      assert s[1..] == b;
    } else {
      assert s[1..] == a[1..] + "/" + b;
      SplitFirstAt(a[1..], b);
      assert a == [a[0]] + a[1..];
    }
  }

  lemma SplitFirstWhole(s: string)
    ensures '/' !in s ==> SplitFirst(s) == [s]
    ensures '/' in s ==> |SplitFirst(s)| == 2
  {
  }

  /** The tag is cut off behind the last colon. */
  lemma ParseTagAt(remote: string, tag: string)
    requires '/' !in tag && ':' !in tag
    ensures ParseTag(remote + ":" + tag) == (remote, tag)
  {
    var s := remote + ":" + tag;
    var n := LastIndex(s, ':');
    assert s[|remote|] == ':';
    assert forall i :: |remote| < i < |s| ==> s[i] == tag[i - |remote| - 1];
    assert n == |remote|;
    assert s[n + 1..] == tag && s[..n] == remote;
  }

  lemma NoColon(remote: string)
    requires ':' !in remote
    ensures ParseTag(remote) == (remote, "latest")
  {
  }

  lemma ParseTagParts(named: string)
    ensures var (remote, tag) := ParseTag(named);
            '/' !in tag && ':' !in tag && (named == remote || named == remote + ":" + tag)
            && ('/' in named ==> '/' in remote)
  {
    var n := LastIndex(named, ':');
    if n >= 0 {
      assert named == named[..n] + ":" + named[n + 1..];
    }
  }

  /** Cutting off the tag keeps the part before the first slash. */
  lemma TagKeepsHost(host: string, path: string)
    requires '/' !in host && ':' !in host
    ensures var remote := ParseTag(host + "/" + path).0;
            '/' in remote && SplitFirst(remote)[0] == host
  {
    var named := host + "/" + path;
    var remote := ParseTag(named).0;
    assert named[|host|] == '/';
    if remote == named {
      SplitFirstAt(host, path);
    } else {
      var n := LastIndex(named, ':');
      assert forall i :: 0 <= i < |host| ==> named[i] == host[i] && host[i] in host;
      assert n > |host|;
      assert remote == host + "/" + named[|host| + 1..n];
      SplitFirstAt(host, named[|host| + 1..n]);
      assert remote[|host|] == '/';
    }
  }

  lemma AcceptedChars(accepts: string -> bool, remote: string)
    requires NameCheck(accepts) && accepts(remote)
    ensures ':' !in remote && '#' !in remote
  {
    forall i | 0 <= i < |remote| ensures remote[i] != ':' && remote[i] != '#' {
      assert NameChar(remote[i]);
    }
  }

  /** The host part of the names, before the tag is cut off. */
  predicate HostShape(index: string, remote: string) {
    && '/' !in index
    && (index != "" ==> HostLike(index))
    && (index == DOCKER_INDEX_SERVER ==> '/' in remote)
    && (index == "" ==> '/' in remote && !HostLike(SplitFirst(remote)[0]))
  }

  lemma PathShape(host: string, path: string)
    requires '/' !in host && !HostLike(host)
    ensures HostShape("", ParseTag(host + "/" + path).0)
  {
    TagKeepsHost(host, path);
  }

  lemma HubShape(index: string, path: string)
    requires index == DOCKER_INDEX_SERVER
    ensures '/' in ParseTag(WithLibrary(path)).0 && '/' !in index && HostLike(index)
  {
    ParseTagParts(WithLibrary(path));
    LibraryHasSlash(path);
  }

  lemma NamesShape(uri: string)
    requires uri != DOCKER_INDEX_SERVER
    ensures HostShape(Names(uri).0, ParseTag(Names(uri).1).0)
  {
    var parts := SplitFirst(uri);
    if |parts| == 1 {
      LibraryIsNoHost();
      assert "library/" + uri == "library" + "/" + uri;
      PathShape("library", uri);
    } else if parts[0] == DOCKER_INDEX_SERVER {
      HubShape(parts[0], parts[1]);
    } else if OfficialRegistry(parts) {
      PathShape(parts[0], parts[1]);
    }
  }

  lemma LibraryHasSlash(remote: string)
    ensures '/' in WithLibrary(remote)
  {
    assert ("library/" + remote)[7] == '/';
  }

  lemma ParsedIsWellFormed(uri: string, accepts: string -> bool)
    requires NameCheck(accepts) && ParseReference(uri, accepts).Parsed?
    ensures WellFormed(ParseReference(uri, accepts).image)
    ensures accepts(ParseReference(uri, accepts).image.remote)
  {
    NamesShape(uri);
    ParseTagParts(Names(uri).1);
    AcceptedChars(accepts, ParseTag(Names(uri).1).0);
  }

  // ---------- what the status screen shows ----------

  function ShownName(image: Image): string {
    if image.index == "" then StripPrefix(image.remote, "library/") else image.index + "/" + image.remote
  }

  function Shown(image: Image): string {
    ShownName(image) + if image.tag == "" then "" else ":" + image.tag
  }

  /** The last fragment sign becomes the colon before the tag. */
  lemma HashAt(name: string, tag: string)
    requires '#' !in tag
    ensures HashToColon(name + "#" + tag) == name + ":" + tag
  {
    var s := name + "#" + tag;
    var n := LastIndex(s, '#');
    assert s[|name|] == '#';
    assert forall i :: |name| < i < |s| ==> s[i] == tag[i - |name| - 1];
    assert n == |name|;
    assert s[n + 1..] == tag && s[..n] == name;
  }

  lemma NoHashIn(name: string)
    requires '#' !in name
    ensures HashToColon(name) == name
  {
  }

  /** Appending a fragment does not change whether a name lies in library/. */
  lemma StripLibrary(name: string, fragment: string)
    requires fragment != "" ==> fragment[0] == '#'
    ensures StripPrefix(name + fragment, "library/") == StripPrefix(name, "library/") + fragment
  {
    var library := "library/";
    if |name| < |library| {
      if library <= name + fragment {
        assert (name + fragment)[|name|] == library[|name|];
      }
    } else {
      assert (name + fragment)[..8] == name[..8];
    }
  }

  lemma StripSlash(s: string)
    ensures StripPrefix("/" + s, "/") == s
    ensures s != "" && s[0] != '/' ==> StripPrefix(s, "/") == s
  {
  }

  /** A host is not the word library. */
  lemma HostIsNotLibrary(host: string, rest: string)
    requires HostLike(host) && '/' !in host
    ensures StripPrefix(host + "/" + rest, "library/") == host + "/" + rest
  {
    var s := host + "/" + rest;
    if "library/" <= s {
      SplitFirstAt(host, rest);
      assert s == "library" + "/" + s[8..];
      SplitFirstAt("library", s[8..]);
      assert false;
    }
  }

  function Fragment(tag: string): string {
    if tag == "" then "" else "#" + tag
  }

  lemma UrlPlainHasNoHash(s: string)
    requires forall i :: 0 <= i < |s| ==> UrlPlain(s[i])
    ensures '#' !in s
  {
  }

  lemma StripScheme(rest: string)
    ensures StripPrefix("docker://" + rest, "docker://") == rest
  {
  }

  lemma UrlText(index: string, remote: string, tag: string)
    ensures PrintUrl(Image(index, remote, tag)) == "docker://" + (index + "/" + (remote + Fragment(tag)))
  {
  }

  lemma StrippedPlain(remote: string, fragment: string)
    requires fragment != "" ==> fragment[0] == '#'
    ensures StripPrefix(StripPrefix("" + "/" + (remote + fragment), "/"), "library/")
            == StripPrefix(remote, "library/") + fragment
  {
    StripSlash(remote + fragment);
    assert "" + "/" + (remote + fragment) == "/" + (remote + fragment);
    StripLibrary(remote, fragment);
  }

  lemma StrippedHost(index: string, rest: string)
    requires '/' !in index && HostLike(index)
    ensures StripPrefix(StripPrefix(index + "/" + rest, "/"), "library/") == index + "/" + rest
  {
    assert index != "";
    StripSlash(index + "/" + rest);
    HostIsNotLibrary(index, rest);
  }

  /** The prefixes of the printed URL, stripped one by one. */
  lemma StrippedUrl(index: string, remote: string, tag: string)
    requires '/' !in index && (index != "" ==> HostLike(index))
    ensures StripPrefix(StripPrefix(StripPrefix(PrintUrl(Image(index, remote, tag)), "docker://"), "/"), "library/")
            == ShownName(Image(index, remote, tag)) + Fragment(tag)
  {
    UrlText(index, remote, tag);
    StripScheme(index + "/" + (remote + Fragment(tag)));
    if index == "" {
      StrippedPlain(remote, Fragment(tag));
    } else {
      StrippedHost(index, remote + Fragment(tag));
      Associate(index + "/", remote, Fragment(tag));
    }
  }

  lemma Associate(a: string, b: string, c: string)
    ensures a + (b + c) == a + b + c
  {
  }

  lemma FragmentToColon(name: string, tag: string)
    requires '#' !in name && '#' !in tag
    ensures HashToColon(name + Fragment(tag)) == name + if tag == "" then "" else ":" + tag
  {
    if tag == "" {
      assert name + "" == name;
      NoHashIn(name);
    } else {
      HashAt(name, tag);
      Associate(name, "#", tag);
      Associate(name, ":", tag);
    }
  }

  lemma NameWithoutHash(image: Image)
    requires '#' !in image.index && '#' !in image.remote
    ensures '#' !in ShownName(image)
  {
  }

  /** Rendering the printed URL gives the index, the remote without library/, and the tag behind a colon. */
  lemma ShownImage(image: Image)
    requires WellFormed(image) && NeedsNoEscape(image)
    ensures ShowImage(PrintUrl(image)) == Shown(image)
  {
    UrlPlainHasNoHash(image.index);
    UrlPlainHasNoHash(image.tag);
    NameWithoutHash(image);
    StrippedUrl(image.index, image.remote, image.tag);
    FragmentToColon(ShownName(image), image.tag);
  }

  // ---------- reading it again ----------

  lemma NamesOfHost(host: string, path: string)
    requires '/' !in host && HostLike(host)
    ensures Names(host + "/" + path) == (host, if host == DOCKER_INDEX_SERVER then WithLibrary(path) else path)
  {
    SplitFirstAt(host, path);
  }

  lemma NamesOfPath(host: string, path: string)
    requires '/' !in host && !HostLike(host)
    ensures Names(host + "/" + path) == ("", host + "/" + path)
  {
    SplitFirstAt(host, path);
  }

  lemma NamesOfBare(name: string)
    requires '/' !in name
    ensures Names(name) == ("", "library/" + name)
  {
    SplitFirstWhole(name);
  }

  lemma NamesOfLibrary(x: string, tag: string)
    requires '/' !in x && '/' !in tag
    ensures Names(x + ":" + tag) == ("", "library/" + x + ":" + tag)
  {
    NamesOfBare(x + ":" + tag);
    Associate("library/", x + ":", tag);
    Associate("library/", x, ":");
  }

  lemma NamesOfSlashed(remote: string, suffix: string)
    requires '/' in remote && !HostLike(SplitFirst(remote)[0])
    ensures Names(remote + suffix) == ("", remote + suffix)
  {
    var parts := SplitFirst(remote);
    SplitFirstWhole(remote);
    Associate(parts[0] + "/", parts[1], suffix);
    NamesOfPath(parts[0], parts[1] + suffix);
  }

  /** With a tag and no nested library/, the shown text names the same index and tagged remote. */
  lemma ShownNames(image: Image)
    requires WellFormed(image) && image.tag != "" && !(image.index == "" && NestedLibrary(image.remote))
    ensures Names(Shown(image)) == (image.index, image.remote + ":" + image.tag)
  {
    var index, remote, suffix := image.index, image.remote, ":" + image.tag;
    Associate(remote, ":", image.tag);
    if index != "" {
      Associate(index + "/", remote, suffix);
      NamesOfHost(index, remote + suffix);
      assert '/' in remote ==> '/' in remote + suffix;
    } else if HasPrefix(remote, "library/") {
      var x := remote[8..];
      assert remote == "library/" + x;
      Associate(x, ":", image.tag);
      NamesOfLibrary(x, image.tag);
    } else {
      NamesOfSlashed(remote, suffix);
    }
  }

  lemma ShownIsNotBareIndex(image: Image)
    requires WellFormed(image) && image.tag != ""
    ensures Shown(image) != DOCKER_INDEX_SERVER
  {
    var text := Shown(image);
    assert text[|ShownName(image)|] == ':';
    assert ':' in text && ':' !in DOCKER_INDEX_SERVER;
  }

  lemma ShownParsesBack(image: Image, accepts: string -> bool)
    requires WellFormed(image) && accepts(image.remote)
    requires image.tag != "" && !(image.index == "" && NestedLibrary(image.remote))
    ensures ParseReference(Shown(image), accepts) == Parsed(image)
  {
    ShownNames(image);
    ShownIsNotBareIndex(image);
    ParseTagAt(image.remote, image.tag);
  }

  /** Without a colon behind the host, the default tag is read. */
  lemma UntaggedNames(uri: string)
    requires var parts := SplitFirst(uri); ':' !in parts[|parts| - 1] && (':' in parts[0] ==> |parts| == 2)
    ensures var named := Names(uri).1; ':' !in named
  {
    var parts := SplitFirst(uri);
    assert ':' !in "library/";
    if |parts| == 2 && ':' in parts[0] {
      assert !OfficialRegistry(parts) || parts[0] == DOCKER_INDEX_SERVER;
    }
  }

  lemma {:induction false} SplitFirstChars(s: string, c: char)
    requires c !in s
    ensures forall part :: part in SplitFirst(s) ==> c !in part
  {
    if s != "" && s[0] != '/' {
      SplitFirstChars(s[1..], c);
    }
  }

  /** Without a tag, the shown text has a colon in the host only. */
  lemma UntaggedShown(image: Image, text: string)
    requires WellFormed(image) && image.tag == "" && text == Shown(image)
    ensures var parts := SplitFirst(text); ':' !in parts[|parts| - 1] && (':' in parts[0] ==> |parts| == 2)
  {
    assert text == ShownName(image);
    if image.index != "" {
      SplitFirstAt(image.index, image.remote);
    } else {
      SplitFirstChars(text, ':');
    }
  }

  lemma UntaggedBecomesLatest(image: Image, accepts: string -> bool)
    requires WellFormed(image) && image.tag == ""
    ensures ParseReference(Shown(image), accepts) != Parsed(image)
  {
    var text := Shown(image);
    UntaggedShown(image, text);
    UntaggedNames(text);
    NoColon(Names(text).1);
  }

  /** Names with no index keep a slashed text whole. */
  lemma NamesWithoutIndex(text: string)
    requires '/' in text && Names(text).0 == ""
    ensures Names(text).1 == text
  {
    SplitFirstWhole(text);
  }

  lemma TagOnlyShortens(y: string, tag: string)
    requires '/' !in tag && ':' !in tag
    ensures |ParseTag(y + if tag == "" then "" else ":" + tag).0| <= |y|
  {
    if tag == "" {
      assert y + "" == y;
      ParseTagParts(y);
    } else {
      Associate(y, ":", tag);
      ParseTagAt(y, tag);
    }
  }

  lemma LostName(text: string, y: string, tag: string, accepts: string -> bool)
    requires '/' in y && '/' !in tag && ':' !in tag
    requires text == y + if tag == "" then "" else ":" + tag
    ensures var r := ParseReference(text, accepts); r.Parsed? && r.image.index == "" ==> |r.image.remote| <= |y|
  {
    assert forall c :: c in y ==> c in text;
    TagOnlyShortens(y, tag);
    if Names(text).0 == "" {
      NamesWithoutIndex(text);
    }
  }

  /** A nested library/ is stripped when shown and does not come back. */
  lemma NestedLibraryIsLost(image: Image, accepts: string -> bool)
    requires WellFormed(image) && image.index == "" && NestedLibrary(image.remote)
    ensures ParseReference(Shown(image), accepts) != Parsed(image)
  {
    LostName(Shown(image), image.remote[8..], image.tag, accepts);
  }

  /**
   Parsing a reference, printing it as a rootfs URL, showing that as an image and parsing again gives
   the same index, remote and tag if and only if the tag is not empty and, with no index named, the
   remote is not nested under library/.
   */
  lemma ImageRoundTrip(uri: string, accepts: string -> bool)
    requires NameCheck(accepts) && ConvertUri(uri, accepts).0.Parsed? && NeedsNoEscape(ConvertUri(uri, accepts).0.image)
    ensures var (reference, url) := ConvertUri(uri, accepts);
            var image := reference.image;
            ParseReference(ShowImage(url), accepts) == Parsed(image)
            <==> image.tag != "" && !(image.index == "" && NestedLibrary(image.remote))
  {
    var image := ConvertUri(uri, accepts).0.image;
    ParsedIsWellFormed(uri, accepts);
    ShownImage(image);
    if image.tag == "" {
      UntaggedBecomesLatest(image, accepts);
    } else if image.index == "" && NestedLibrary(image.remote) {
      NestedLibraryIsLost(image, accepts);
    } else {
      ShownParsesBack(image, accepts);
    }
  }

  /** A reference whose image fails the condition is lost on the way. */
  lemma Lost(uri: string, image: Image, accepts: string -> bool)
    requires NameCheck(accepts) && !Contains(uri, "://") && ParseReference(uri, accepts) == Parsed(image)
    requires NeedsNoEscape(image) && (image.tag == "" || (image.index == "" && NestedLibrary(image.remote)))
    ensures ParseReference(ShowImage(ConvertUri(uri, accepts).1), accepts) != ParseReference(uri, accepts)
  {
    ImageRoundTrip(uri, accepts);
  }

  lemma {:induction false} NoScheme(uri: string)
    requires forall i :: 0 <= i < |uri| - 1 ==> uri[i] != ':' || uri[i + 1] != '/'
    ensures !Contains(uri, "://")
  {
    if uri != "" {
      var tail := uri[1..];
      assert forall i :: 0 <= i < |tail| ==> tail[i] == uri[i + 1];
      NoScheme(tail);
      assert "://"[0] == ':' && "://"[1] == '/';
    }
  }

  lemma ParseColonAtEnd(name: string, accepts: string -> bool)
    requires '/' !in name && ':' !in name && accepts("library/" + name)
    ensures ParseReference(name + ":", accepts) == Parsed(Image("", "library/" + name, ""))
  {
    var uri := name + ":";
    assert uri[|name|] == ':' && ':' !in DOCKER_INDEX_SERVER;
    NamesOfBare(uri);
    ParseTagAt("library/" + name, "");
    assert "library/" + uri == "library/" + name + ":" + "";
  }

  /** The empty tag of a reference like `name:` comes back as another tag. */
  lemma EmptyTagIsLost(name: string, accepts: string -> bool)
    requires '/' !in name && ':' !in name && NameCheck(accepts) && accepts("library/" + name)
    ensures ParseReference(name + ":", accepts) == Parsed(Image("", "library/" + name, ""))
    ensures ParseReference(ShowImage(ConvertUri(name + ":", accepts).1), accepts) != ParseReference(name + ":", accepts)
  {
    ParseColonAtEnd(name, accepts);
    NoScheme(name + ":");
    Lost(name + ":", Image("", "library/" + name, ""), accepts);
  }

  lemma ParseTagged(remote: string, host: string, rest: string, tag: string, accepts: string -> bool)
    requires remote == host + "/" + rest && '/' !in host && !HostLike(host) && host != DOCKER_INDEX_SERVER
    requires accepts(remote) && '/' !in tag && ':' !in tag
    ensures ParseReference(remote + ":" + tag, accepts) == Parsed(Image("", remote, tag))
  {
    var uri := remote + ":" + tag;
    Associate(host + "/", rest, ":" + tag);
    assert uri == host + "/" + (rest + ":" + tag);
    NamesOfPath(host, rest + ":" + tag);
    ParseTagAt(remote, tag);
    assert uri[|host|] == '/' && '/' !in DOCKER_INDEX_SERVER;
  }

  lemma TaggedHasNoScheme(remote: string, tag: string, accepts: string -> bool)
    requires NameCheck(accepts) && accepts(remote) && '/' !in tag && ':' !in tag
    ensures !Contains(remote + ":" + tag, "://")
  {
    var uri := remote + ":" + tag;
    forall i | 0 <= i < |uri| - 1 ensures uri[i] != ':' || uri[i + 1] != '/' {
      if i < |remote| {
        assert NameChar(remote[i]);
      } else {
        assert uri[i + 1] == tag[i - |remote|];
      }
    }
    NoScheme(uri);
  }

  /** A remote nested under library comes back without its library. */
  lemma NestedRemoteIsLost(remote: string, tag: string, accepts: string -> bool)
    requires NestedLibrary(remote) && NameCheck(accepts) && accepts(remote)
    requires '/' !in tag && ':' !in tag && NeedsNoEscape(Image("", remote, tag))
    ensures ParseReference(remote + ":" + tag, accepts) == Parsed(Image("", remote, tag))
    ensures ParseReference(ShowImage(ConvertUri(remote + ":" + tag, accepts).1), accepts)
            != ParseReference(remote + ":" + tag, accepts)
  {
    var rest := remote[|"library/"|..];
    assert remote == "library" + "/" + rest;
    LibraryIsNoHost();
    ParseTagged(remote, "library", rest, tag, accepts);
    TaggedHasNoScheme(remote, tag, accepts);
    Lost(remote + ":" + tag, Image("", remote, tag), accepts);
  }

  lemma LibraryIsNoHost()
    ensures !HostLike("library") && '/' !in "library" && "library" != DOCKER_INDEX_SERVER
  {
    assert |"library"| != |DOCKER_INDEX_SERVER|;
    assert |"library"| != |"localhost"|;
  }

  // ---------- the rules for hosts and tags ----------

  /** A name and the tag read behind it: the default, the one behind the last colon, or none when a slash follows. */
  ghost predicate Tagged(text: string, name: string, tag: string) {
    || (text == name && ':' !in name && tag == "latest")
    || (text == name + ":" + tag && '/' !in tag && ':' !in tag)
    || (text == name && tag == ""
        && exists k :: 0 <= k < |text| && text[k] == ':' && ':' !in text[k + 1..] && '/' in text[k + 1..])
  }

  lemma LastColonAt(text: string, k: nat)
    requires k < |text| && text[k] == ':' && ':' !in text[k + 1..]
    ensures LastIndex(text, ':') == k
  {
    assert forall i :: k < i < |text| ==> text[i] == text[k + 1..][i - k - 1];
  }

  lemma TaggedParse(prefix: string, text: string, name: string, tag: string)
    requires Tagged(text, name, tag) && ':' !in prefix
    ensures ParseTag(prefix + text) == (prefix + name, tag)
  {
    if text == name + ":" + tag && '/' !in tag && ':' !in tag {
      Associate(prefix, name + ":", tag);
      Associate(prefix, name, ":");
      ParseTagAt(prefix + name, tag);
    } else if ':' in text {
      var k :| 0 <= k < |text| && text[k] == ':' && ':' !in text[k + 1..] && '/' in text[k + 1..];
      assert (prefix + text)[|prefix| + k + 1..] == text[k + 1..];
      LastColonAt(prefix + text, |prefix| + k);
    } else {
      NoColon(prefix + text);
    }
  }

  /** The reference names this image, or is refused for the remote's name. */
  ghost predicate Answers(uri: string, accepts: string -> bool, index: string, remote: string, tag: string) {
    ParseReference(uri, accepts) == if accepts(remote) then Parsed(Image(index, remote, tag)) else InvalidName(remote)
  }

  /** A reference without slash names an official image. */
  lemma BareReference(text: string, name: string, tag: string, accepts: string -> bool)
    requires Tagged(text, name, tag) && '/' !in text && text != "docker.io"
    ensures Answers(text, accepts, "", "library/" + name, tag)
  {
    NamesOfBare(text);
    TaggedParse("library/", text, name, tag);
  }

  lemma PlainTag(text: string, name: string, tag: string)
    requires Tagged(text, name, tag)
    ensures ParseTag(text) == (name, tag)
  {
    TaggedParse("", text, name, tag);
    assert "" + text == text && "" + name == name;
  }

  /** Behind docker.io a name without slash is an official image too, and a path is kept. */
  lemma HubReference(text: string, name: string, tag: string, accepts: string -> bool)
    requires Tagged(text, name, tag)
    ensures Answers("docker.io/" + text, accepts, "docker.io", if '/' in text then name else "library/" + name, tag)
  {
    assert "docker.io/" + text == "docker.io" + "/" + text;
    SplitFirstAt("docker.io", text);
    if '/' in text {
      PlainTag(text, name, tag);
    } else {
      TaggedParse("library/", text, name, tag);
    }
  }

  /** So `x` and `docker.io/x` name the same remote and tag, but only the second one an index. */
  lemma HubNamesTheSameImage(text: string, accepts: string -> bool)
    requires '/' !in text && text != "docker.io"
    ensures var bare, hub := ParseReference(text, accepts), ParseReference("docker.io/" + text, accepts);
            if bare.Parsed? then bare.image.index == "" && hub == Parsed(bare.image.(index := "docker.io"))
            else bare.InvalidName? && hub == bare
  {
    NamesOfBare(text);
    assert "docker.io/" + text == "docker.io" + "/" + text;
    SplitFirstAt("docker.io", text);
  }

  /** Any other first part with a dot or a colon, and localhost, is a registry; its path is kept as it is. */
  lemma RegistryReference(host: string, text: string, name: string, tag: string, accepts: string -> bool)
    requires Tagged(text, name, tag) && '/' !in host && host != "docker.io"
    requires '.' in host || ':' in host || host == "localhost"
    ensures Answers(host + "/" + text, accepts, host, name, tag)
  {
    assert (host + "/" + text)[|host|] == '/';
    NamesOfHost(host, text);
    PlainTag(text, name, tag);
  }

  /** Any other first part belongs to the path. */
  lemma PathReference(first: string, text: string, name: string, tag: string, accepts: string -> bool)
    requires Tagged(text, name, tag) && '/' !in first && '.' !in first && ':' !in first && first != "localhost"
    ensures Answers(first + "/" + text, accepts, "", first + "/" + name, tag)
  {
    assert (first + "/" + text)[|first|] == '/';
    NamesOfPath(first, text);
    TaggedParse(first + "/", text, name, tag);
  }

  /** The parser panics on docker.io alone and on nothing else. */
  lemma PanicsExactlyOnBareIndex(uri: string, accepts: string -> bool)
    ensures ParseReference(uri, accepts).IndexPanic? <==> uri == "docker.io"
  {
  }

  lemma {:induction false} ContainsAt(s: string, sub: string)
    ensures Contains(s, sub) <==> exists i :: 0 <= i <= |s| && sub <= s[i..]
  {
    assert s[0..] == s;
    if s != "" {
      var tail := s[1..];
      ContainsAt(tail, sub);
      assert forall i :: 0 <= i <= |tail| ==> tail[i..] == s[i + 1..];
      if exists i :: 0 < i <= |s| && sub <= s[i..] {
        var i :| 0 < i <= |s| && sub <= s[i..];
        assert sub <= tail[i - 1..];
      }
    }
  }

  /** A reference that contains a scheme separator is refused, an accepted one printed with all three parts. */
  lemma PrintedUrl(uri: string, accepts: string -> bool)
    ensures var (reference, url) := ConvertUri(uri, accepts);
            && (reference == HasScheme(uri) <==> exists i :: 0 <= i <= |uri| && "://" <= uri[i..])
            && (!reference.HasScheme? ==> reference == ParseReference(uri, accepts))
            && (!reference.Parsed? ==> url == "")
            && (reference.Parsed? && reference.image.tag == "" ==>
                  url == "docker://" + reference.image.index + "/" + reference.image.remote)
            && (reference.Parsed? && reference.image.tag != "" ==>
                  url == "docker://" + reference.image.index + "/" + reference.image.remote
                         + "#" + reference.image.tag)
  {
    ContainsAt(uri, "://");
    var (reference, url) := ConvertUri(uri, accepts);
    if reference.Parsed? {
      var base := "docker://" + reference.image.index + "/" + reference.image.remote;
      assert base + "" == base;
      Associate(base, "#", reference.image.tag);
    }
  }

  lemma UrlTexts(text: string)
    ensures "docker:///library/" + text == "docker://" + ("/" + ("library/" + text))
    ensures "docker:///" + text == "docker://" + ("/" + text)
  {
    assert "docker:///library/" == "docker://" + "/" + "library/" && "docker:///" == "docker://" + "/";
    Associate("docker://", "/", "library/" + text);
    Associate("docker://" + "/", "library/", text);
    Associate("docker://", "/", text);
  }

  lemma ShownSteps(rootFS: string, path: string, name: string, text: string)
    requires rootFS == "docker://" + path && StripPrefix(path, "/") == name && StripPrefix(name, "library/") == text
    ensures ShowImage(rootFS) == HashToColon(text)
  {
    StripScheme(path);
  }

  lemma StripLibraryWord(text: string)
    ensures StripPrefix("library/" + text, "library/") == text
  {
  }

  /** A rootfs is shown without scheme, leading slash and library, and its last fragment sign as a colon. */
  lemma ShownRootFS(text: string)
    requires !("library/" <= text) && (text == "" || text[0] != '/')
    ensures ShowImage("docker:///library/" + text) == HashToColon(text)
    ensures ShowImage("docker:///" + text) == HashToColon(text)
    ensures ShowImage("docker://" + text) == HashToColon(text)
  {
    UrlTexts(text);
    StripSlash("library/" + text);
    StripSlash(text);
    StripLibraryWord(text);
    ShownSteps("docker://" + ("/" + ("library/" + text)), "/" + ("library/" + text), "library/" + text, text);
    ShownSteps("docker://" + ("/" + text), "/" + text, text, text);
    ShownSteps("docker://" + text, text, text, text);
  }
}
