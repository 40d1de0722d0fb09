/** The pure helpers of sys/build.rs: re-rooting archive paths under `CSFML`, the
    target-triple to download-URL table, the choice of archive format from the URL,
    and the list of headers the generated wrapper includes. Downloading, unpacking,
    writing files and running bindgen are left out. */
module BuildScript {
  import opened Results

  /** A path as the list of its components, each a non-empty name. */
  type Path = seq<string>

  /** `adjust_path_for_csfml`: the first component is replaced by `CSFML`; a path
      with no component is returned as it is. Stripping a path's own first
      component cannot fail, so the error the source threads through is never
      raised. */
  function AdjustPath(path: Path): (r: Path)
    ensures |r| == |path|
    ensures path != [] ==> r[0] == "CSFML"
    ensures forall i :: 1 <= i < |path| ==> r[i] == path[i]
  {
    if path == [] then path else ["CSFML"] + path[1..]
  }

  /** `strip_prefix` by one component, as `extract_tar_gz` applies it: defined only
      when the path starts with that component. */
  function StripPrefix(path: Path, prefix: string): (r: Result<Path, string>)
    ensures r.Ok? <==> path != [] && path[0] == prefix
    ensures r.Ok? ==> [prefix] + r.value == path
  {
    if path != [] && path[0] == prefix then Ok(path[1..]) else Err("prefix not found")
  }

  /** Where `extract_tar_gz` unpacks an entry: the re-rooted path with `CSFML` taken
      off again, below the extraction directory. */
  function UnpackTarget(dir: Path, entry: Path): (r: Result<Path, string>)
    ensures r.Ok? <==> entry != []
    ensures r.Ok? ==> |r.value| == |dir| + |entry| - 1 && r.value[..|dir|] == dir
    ensures r.Ok? ==> forall i :: 1 <= i < |entry| ==> r.value[|dir| + i - 1] == entry[i]
  {
    match StripPrefix(AdjustPath(entry), "CSFML")
    case Ok(rest) => Ok(dir + rest)
    case Err(e) => Err(e)
  }

  /** Re-rooting is idempotent, and an entry unpacks to the extraction directory
      followed by everything below the archive's top-level folder, whatever that
      folder was called. Only an empty entry path fails. */
  lemma AdjustPathReRoots(dir: Path, entry: Path)
    ensures AdjustPath(AdjustPath(entry)) == AdjustPath(entry)
    ensures entry == [] ==> UnpackTarget(dir, entry).Err?
    ensures entry != [] ==> UnpackTarget(dir, entry) == Ok(dir + entry[1..])
  {
  }

  /** The four targets with a precompiled download, in the order they are tried. */
  const AARCH64_DARWIN: string := "aarch64-apple-darwin"
  const X86_64_DARWIN: string := "x86_64-apple-darwin"
  const X86_64_WINDOWS: string := "x86_64-pc-windows-msvc"
  const I686_WINDOWS: string := "i686-pc-windows-msvc"

  predicate KnownTarget(target: string) {
    target == AARCH64_DARWIN || target == X86_64_DARWIN
    || target == X86_64_WINDOWS || target == I686_WINDOWS
  }

  const DOWNLOADS: string := "https://www.sfml-dev.org/files"

  const MAC_ARM64_ARCHIVE: string := "CSFML-2.6.1-macOS-clang-arm64.tar.gz"
  const MAC_64_ARCHIVE: string := "CSFML-2.6.1-macOS-clang-64-bit.tar.gz"
  const WINDOWS_64_ARCHIVE: string := "CSFML-2.6.1-windows-64-bit.zip"
  const WINDOWS_32_ARCHIVE: string := "CSFML-2.6.1-windows-32-bit.zip"

  /** The archive file name for a target. */
  function ArchiveName(target: string): string
    requires KnownTarget(target)
  {
    if target == AARCH64_DARWIN then MAC_ARM64_ARCHIVE
    else if target == X86_64_DARWIN then MAC_64_ARCHIVE
    else if target == X86_64_WINDOWS then WINDOWS_64_ARCHIVE
    else WINDOWS_32_ARCHIVE
  }

  /** `get_cfml_url`, with the `TARGET` variable passed in (a missing variable reads as
      the empty string). Any other target panics. Every URL lies in the downloads
      directory of the SFML site. */
  function GetCsfmlUrl(target: string): (url: string)
    requires KnownTarget(target)
    ensures |DOWNLOADS| + 1 < |url| && url[..|DOWNLOADS| + 1] == DOWNLOADS + "/"
  {
    DOWNLOADS + "/" + ArchiveName(target)
  }

  /** Each target has its own archive. */
  lemma UrlTableInjective(s: string, t: string)
    requires KnownTarget(s) && KnownTarget(t)
    ensures GetCsfmlUrl(s) == GetCsfmlUrl(t) <==> s == t
  {
    if s != t {
      assert ArchiveName(s) != ArchiveName(t) by {
        assert ArchiveName(s)[12] != ArchiveName(t)[12] || ArchiveName(s)[|ArchiveName(s)| - 10] != ArchiveName(t)[|ArchiveName(t)| - 10];
      }
      var prefix := DOWNLOADS + "/";
      assert GetCsfmlUrl(s)[|prefix|..] == ArchiveName(s);
      assert GetCsfmlUrl(t)[|prefix|..] == ArchiveName(t);
    }
  }

  predicate EndsWith(s: string, suffix: string) {
    |suffix| <= |s| && s[|s| - |suffix|..] == suffix
  }

  /** Whether position `i` of `s` is one `std::path` may drop from the end of a path:
      a separator, or a `.` component right after one. */
  predicate Droppable(s: string, i: int)
    requires 0 <= i < |s|
  {
    s[i] == '/' || (s[i] == '.' && 0 < i && s[i - 1] == '/')
  }

  /** `s` without the trailing separators and trailing `.` components that
      `std::path` drops when it splits a path: what is cut off is droppable, and
      what is left ends in neither. */
  function TrimTail(s: string): (r: string)
    ensures |r| <= |s| && s[..|r|] == r
    ensures forall i :: |r| <= i < |s| ==> Droppable(s, i)
    ensures r == [] || (r[|r| - 1] != '/' && !EndsWith(r, "/."))
  {
    if (|s| > 0 && s[|s| - 1] == '/') || EndsWith(s, "/.") then
      var init := s[..|s| - 1];
      var r := TrimTail(init);
      assert s[..|r|] == init[..|r|];
      assert forall i :: |r| <= i < |s| ==> Droppable(s, i) by {
        forall i | |r| <= i < |s| ensures Droppable(s, i) {
          if i < |init| {
            assert Droppable(init, i) && init[i] == s[i];
            if 0 < i { assert init[i - 1] == s[i - 1]; }
          } else if s[|s| - 1] != '/' {
            assert s[|s| - 2..] == "/.";
            assert s[|s| - 2] == '/';
          }
        }
      }
      r
    else s
  }

  /** What follows the last '/'. */
  function LastSegment(s: string): (r: string)
    ensures '/' !in r
    ensures EndsWith(s, r)
    ensures |r| == |s| || s[|s| - |r| - 1] == '/'
  {
    if s == [] || s[|s| - 1] == '/' then []
    else LastSegment(s[..|s| - 1]) + [s[|s| - 1]]
  }

  /** `Path::file_name` on a '/'-separated string: the last segment once the ignored
      tail is gone, unless it is empty, `.` or `..`. */
  function FileName(s: string): (r: Option<string>)
    ensures r.Some? ==> '/' !in r.value && r.value !in {"", ".", ".."}
    ensures r.Some? ==> EndsWith(TrimTail(s), r.value)
  {
    var name := LastSegment(TrimTail(s));
    if name == [] || name == "." || name == ".." then None else Some(name)
  }

  /** The position of the last '.', if any. */
  function LastDot(s: string): (r: Option<nat>)
    ensures r.None? <==> '.' !in s
    ensures r.Some? ==> r.value < |s| && s[r.value] == '.' && '.' !in s[r.value + 1..]
  {
    if s == [] then None
    else if s[|s| - 1] == '.' then Some(|s| - 1)
    else LastDot(s[..|s| - 1])
  }

  /** `Path::extension` of a file name: what follows the last '.', unless there is no
      '.', or the only one opens the name, or the name is `..`. */
  function Extension(name: string): (r: Option<string>)
    ensures '.' !in name ==> r.None?
    ensures r.Some? ==> '.' !in r.value
    ensures r.Some? ==> |r.value| + 1 < |name| && EndsWith(name, "." + r.value)
  {
    if name == ".." then None
    else match LastDot(name)
      case None => None
      case Some(i) =>
        if i == 0 then None
        else
          assert name[i..] == "." + name[i + 1..];
          Some(name[i + 1..])
  }

  function AsciiLower(c: char): char {
    if 'A' <= c <= 'Z' then (c as int + 32) as char else c
  }

  /** `eq_ignore_ascii_case`. */
  predicate EqIgnoreAsciiCase(a: string, b: string) {
    |a| == |b| && forall i :: 0 <= i < |a| ==> AsciiLower(a[i]) == AsciiLower(b[i])
  }

  datatype ArchiveFormat = Zip | TarGz

  /** The format choice in `download_and_extract_csfml`: a file extension of "zip" in
      any case selects ZIP; otherwise a URL ending in ".tar.gz" selects tar.gz;
      anything else is an unsupported format. */
  function FormatOf(url: string): (r: Result<ArchiveFormat, string>)
    ensures r == Ok(TarGz) ==> EndsWith(url, ".tar.gz")
  {
    var ext := if FileName(url).Some? then Extension(FileName(url).value) else None;
    if ext.Some? && EqIgnoreAsciiCase(ext.value, "zip") then Ok(Zip)
    else if EndsWith(url, ".tar.gz") then Ok(TarGz)
    else Err("Unsupported archive format")
  }

  /** The segment after a last '/' is everything that follows it. */
  lemma {:induction false} LastSegmentAfterSlash(dir: string, name: string)
    requires '/' !in name
    ensures LastSegment(dir + "/" + name) == name
  {
    if name != [] {
      var s := dir + "/" + name;
      var init := name[..|name| - 1];
      assert s[..|s| - 1] == dir + "/" + init;
      LastSegmentAfterSlash(dir, init);
      assert init + [name[|name| - 1]] == name;
    } else {
      assert (dir + "/" + name)[|dir + "/" + name| - 1] == '/';
    }
  }

  /** The last '.' of a name is the one before a dot-free tail. */
  lemma {:induction false} LastDotBeforeTail(stem: string, tail: string)
    requires '.' !in tail
    ensures LastDot(stem + "." + tail) == Some(|stem|)
  {
    if tail != [] {
      var s := stem + "." + tail;
      var init := tail[..|tail| - 1];
      assert s[..|s| - 1] == stem + "." + init;
      assert s[|s| - 1] == tail[|tail| - 1];
      LastDotBeforeTail(stem, init);
    }
  }

  /** The file name of a URL whose last segment is an ordinary name is that name. */
  lemma FileNameAfterSlash(dir: string, name: string)
    requires name != [] && '/' !in name && name != "." && name != ".."
    ensures FileName(dir + "/" + name) == Some(name)
  {
    var url := dir + "/" + name;
    assert url[|url| - 1] == name[|name| - 1];
    assert TrimTail(url) == url by {
      if |name| >= 2 {
        assert url[|url| - 2] == name[|name| - 2];
      }
    }
    LastSegmentAfterSlash(dir, name);
  }

  /** A name made of a non-empty stem, a dot and a non-empty dot-free tail has that
      tail as its extension. */
  lemma ExtensionAfterDot(stem: string, tail: string)
    requires stem != [] && tail != [] && '.' !in tail
    ensures Extension(stem + "." + tail) == Some(tail)
  {
    var name := stem + "." + tail;
    assert name[|name| - 1] == tail[|tail| - 1];
    assert name != "..";
    LastDotBeforeTail(stem, tail);
    assert name[|stem| + 1..] == tail;
  }

  lemma NoSlashInJoin(a: string, b: string)
    requires '/' !in a && '/' !in b
    ensures '/' !in a + "." + b
  {
    var j := a + "." + b;
    forall i | 0 <= i < |j| ensures j[i] != '/' {
      if i < |a| { assert j[i] == a[i]; }
      else if i > |a| { assert j[i] == b[i - |a| - 1]; }
    }
  }

  /** A URL whose last segment is a non-empty stem, a dot and a non-empty dot-free
      tail has that tail as its extension. */
  lemma ExtensionOfUrl(dir: string, stem: string, tail: string)
    requires stem != [] && tail != [] && '/' !in stem && '.' !in tail && '/' !in tail
    ensures FileName(dir + "/" + stem + "." + tail) == Some(stem + "." + tail)
    ensures Extension(stem + "." + tail) == Some(tail)
  {
    var name := stem + "." + tail;
    assert dir + "/" + stem + "." + tail == dir + "/" + name;
    NoSlashInJoin(stem, tail);
    assert name[|name| - 1] == tail[|tail| - 1];
    assert |name| >= 3;
    FileNameAfterSlash(dir, name);
    ExtensionAfterDot(stem, tail);
  }

  /** A `.zip` file in any case is unpacked as ZIP. */
  lemma ZipUrl(dir: string, stem: string, ext: string)
    requires stem != [] && '/' !in stem && '.' !in ext && '/' !in ext
    requires EqIgnoreAsciiCase(ext, "zip")
    ensures FormatOf(dir + "/" + stem + "." + ext) == Ok(Zip)
  {
    ExtensionOfUrl(dir, stem, ext);
  }

  /** A `.tar.gz` file is unpacked as tar.gz: its extension is "gz", not "zip". */
  lemma TarGzUrl(dir: string, stem: string)
    requires stem != [] && '/' !in stem
    ensures FormatOf(dir + "/" + stem + ".tar.gz") == Ok(TarGz)
  {
    var url := dir + "/" + stem + ".tar.gz";
    var stemTar := stem + "." + "tar";
    assert dir + "/" + stemTar + "." + "gz" == url;
    NoSlashInJoin(stem, "tar");
    ExtensionOfUrl(dir, stemTar, "gz");
    assert !EqIgnoreAsciiCase("gz", "zip");
    assert url[|url| - 7..] == ".tar.gz";
  }

  /** The Windows downloads are ZIP archives, so `download_and_extract_csfml` unpacks
      them as such. */
  lemma WindowsUrlsAreZip(target: string)
    requires target == X86_64_WINDOWS || target == I686_WINDOWS
    ensures KnownTarget(target) && FormatOf(GetCsfmlUrl(target)) == Ok(Zip)
  {
    if target == X86_64_WINDOWS {
      assert WINDOWS_64_ARCHIVE == "CSFML-2.6.1-windows-64-bit" + "." + "zip";
      ArchiveIsZip(target, "CSFML-2.6.1-windows-64-bit");
    } else {
      assert WINDOWS_32_ARCHIVE == "CSFML-2.6.1-windows-32-bit" + "." + "zip";
      ArchiveIsZip(target, "CSFML-2.6.1-windows-32-bit");
    }
  }

  /** A target whose archive is `<stem>.zip` downloads a ZIP archive. */
  lemma ArchiveIsZip(target: string, stem: string)
    requires KnownTarget(target) && ArchiveName(target) == stem + "." + "zip"
    requires stem != [] && '/' !in stem
    ensures FormatOf(GetCsfmlUrl(target)) == Ok(Zip)
  {
    var dir := DOWNLOADS;
    assert GetCsfmlUrl(target) == dir + "/" + stem + "." + "zip" by {
      assert GetCsfmlUrl(target) == dir + "/" + (stem + "." + "zip");
    }
    assert '.' !in "zip" && '/' !in "zip" && EqIgnoreAsciiCase("zip", "zip");
    ZipUrl(dir, stem, "zip");
  }

  /** The macOS downloads are tar.gz archives, so `download_and_extract_csfml` unpacks
      them as such. */
  lemma MacUrlsAreTarGz(target: string)
    requires target == AARCH64_DARWIN || target == X86_64_DARWIN
    ensures KnownTarget(target) && FormatOf(GetCsfmlUrl(target)) == Ok(TarGz)
  {
    var stem := if target == AARCH64_DARWIN then "CSFML-2.6.1-macOS-clang-arm64" else "CSFML-2.6.1-macOS-clang-64-bit";
    assert stem + ".tar.gz" == ArchiveName(target);
    assert GetCsfmlUrl(target) == DOWNLOADS + "/" + stem + ".tar.gz";
    TarGzUrl(DOWNLOADS, stem);
  }

  /** A host for the examples below. */
  const HOST: string := "https://host"

  /** The extension test ignores case: `https://host/CSFML.ZIP` is a ZIP archive. */
  lemma UpperCaseZipExample()
    ensures FormatOf(HOST + "/" + "CSFML" + "." + "ZIP") == Ok(Zip)
  {
    assert EqIgnoreAsciiCase("ZIP", "zip");
    ZipUrl(HOST, "CSFML", "ZIP");
  }

  /** A trailing separator or `.` component changes neither the file name nor,
      when the name is a ZIP archive's, the format chosen. */
  lemma FileNameIgnoresTail(s: string)
    ensures FileName(s + "/") == FileName(s)
    ensures FileName(s + "/.") == FileName(s)
    ensures FormatOf(s).Ok? && FormatOf(s).value == Zip ==> FormatOf(s + "/.") == Ok(Zip)
  {
    assert (s + "/")[..|s|] == s;
    assert EndsWith(s + "/.", "/.") && (s + "/.")[..|s| + 1] == s + "/";
  }

  /** `https://host/CSFML.zip/.` names the file `CSFML.zip`, so it is unpacked as ZIP. */
  lemma TrailingDotZipExample()
    ensures FormatOf(HOST + "/" + "CSFML" + "." + "zip" + "/.") == Ok(Zip)
  {
    assert EqIgnoreAsciiCase("zip", "zip");
    ZipUrl(HOST, "CSFML", "zip");
    FileNameIgnoresTail(HOST + "/" + "CSFML" + "." + "zip");
  }

  /** A file named just ".zip" has no extension, so `https://host/.zip` is refused. */
  lemma DotZipExample()
    ensures FormatOf(HOST + "/" + ".zip").Err?
  {
    var url := HOST + "/" + ".zip";
    FileNameAfterSlash(HOST, ".zip");
    LastDotBeforeTail([], "zip");
    assert [] + "." + "zip" == ".zip";
    assert url[|url| - 1] == 'p';
  }

  /** Every other archive is refused: a URL whose extension is not "zip" in any case and
      which does not end in ".tar.gz" is an unsupported format. */
  lemma RefusedUrl(dir: string, stem: string, ext: string)
    requires stem != [] && ext != [] && '/' !in stem && '/' !in ext && '.' !in ext
    requires !EqIgnoreAsciiCase(ext, "zip")
    requires !EndsWith(dir + "/" + stem + "." + ext, ".tar.gz")
    ensures FormatOf(dir + "/" + stem + "." + ext).Err?
  {
    ExtensionOfUrl(dir, stem, ext);
  }

  /** Other archive formats are refused: `https://host/CSFML.tar.bz2` is neither. */
  lemma OtherFormatExample()
    ensures FormatOf(HOST + "/" + "CSFML.tar" + "." + "bz2").Err?
  {
    var url := HOST + "/" + "CSFML.tar" + "." + "bz2";
    var name := "CSFML.tar" + "." + "bz2";
    assert FileName(url) == Some(name) && Extension(name) == Some("bz2") by {
      ExtensionOfUrl(HOST, "CSFML.tar", "bz2");
    }
    assert !EqIgnoreAsciiCase("bz2", "zip") by {
      assert AsciiLower("bz2"[0]) != AsciiLower("zip"[0]);
    }
    assert !EndsWith(url, ".tar.gz") by {
      assert url[|url| - 1] == '2';
    }
  }

  /** The SFML modules a wrapper can include, in the order `generate_wrapper` tries
      them. */
  datatype SfmlModule = System | Audio | Window | Graphics | Network

  const MODULE_ORDER: seq<SfmlModule> := [System, Audio, Window, Graphics, Network]

  datatype Features = Features(audio: bool, window: bool, graphics: bool, network: bool)

  /** System is always built; each other module exactly when its feature is on. */
  predicate Enabled(f: Features, m: SfmlModule) {
    match m
    case System => true
    case Audio => f.audio
    case Window => f.window
    case Graphics => f.graphics
    case Network => f.network
  }

  function Header(m: SfmlModule): string {
    match m
    case System => "SFML/System.h"
    case Audio => "SFML/Audio.h"
    case Window => "SFML/Window.h"
    case Graphics => "SFML/Graphics.h"
    case Network => "SFML/Network.h"
  }

  /** The library `link_sfml_subsystem` links for a module. */
  function LinkedLibrary(m: SfmlModule): string {
    match m
    case System => "csfml-system"
    case Audio => "csfml-audio"
    case Window => "csfml-window"
    case Graphics => "csfml-graphics"
    case Network => "csfml-network"
  }

  /** `[m]` when `b` holds, nothing otherwise: one guarded `push`. */
  function Optional(b: bool, m: SfmlModule): seq<SfmlModule> {
    if b then [m] else []
  }

  /** The modules `generate_wrapper` pushes, one `if` after another. */
  function WrapperModules(f: Features): (ms: seq<SfmlModule>)
    ensures |ms| >= 1 && ms[0] == System
  {
    [System]
      + Optional(f.audio, Audio)
      + Optional(f.window, Window)
      + Optional(f.graphics, Graphics)
      + Optional(f.network, Network)
  }

  /** The header list of `generate_wrapper`: System's header first, the header of
      every enabled module and of no other, each once. */
  function Headers(f: Features): (hs: seq<string>)
    ensures |hs| >= 1 && hs[0] == "SFML/System.h"
    ensures forall m :: Header(m) in hs <==> Enabled(f, m)
    ensures NoDuplicates(hs)
  {
    var ms := WrapperModules(f);
    var hs := seq(|ms|, i requires 0 <= i < |ms| => Header(ms[i]));
    NamedModules(f, hs, Header);
    hs
  }

  /** The libraries `generate_wrapper` links through `link_sfml_subsystem`: the library
      of every enabled module and of no other, each once, System's first. */
  function LinkedLibraries(f: Features): (ls: seq<string>)
    ensures |ls| >= 1 && ls[0] == "csfml-system"
    ensures forall m :: LinkedLibrary(m) in ls <==> Enabled(f, m)
    ensures NoDuplicates(ls)
  {
    var ms := WrapperModules(f);
    var ls := seq(|ms|, i requires 0 <= i < |ms| => LinkedLibrary(ms[i]));
    NamedModules(f, ls, LinkedLibrary);
    ls
  }

  /** Every header is included together with the library of the same module, in the
      same order. */
  lemma HeadersMatchLibraries(f: Features)
    ensures |Headers(f)| == |LinkedLibraries(f)|
    ensures forall i :: 0 <= i < |Headers(f)| ==>
      exists m :: Headers(f)[i] == Header(m) && LinkedLibrary(m) == LinkedLibraries(f)[i]
  {
    var ms := WrapperModules(f);
    forall i | 0 <= i < |Headers(f)|
      ensures exists m :: Headers(f)[i] == Header(m) && LinkedLibrary(m) == LinkedLibraries(f)[i]
    {
      assert Headers(f)[i] == Header(ms[i]) && LinkedLibrary(ms[i]) == LinkedLibraries(f)[i];
    }
  }

  /** Naming the wrapper's modules with a one-to-one naming keeps System's name first,
      names exactly the enabled modules, and names none twice. */
  lemma NamedModules(f: Features, names: seq<string>, name: SfmlModule -> string)
    requires |names| == |WrapperModules(f)|
    requires forall i :: 0 <= i < |names| ==> names[i] == name(WrapperModules(f)[i])
    requires forall a, b :: name(a) == name(b) ==> a == b
    ensures |names| >= 1 && names[0] == name(System)
    ensures forall m :: name(m) in names <==> Enabled(f, m)
    ensures NoDuplicates(names)
  {
    var ms := WrapperModules(f);
    forall m ensures name(m) in names <==> Enabled(f, m) {
      WrapperMembership(f, m);
      if m in ms {
        var k :| 0 <= k < |ms| && ms[k] == m;
        assert names[k] == name(m);
      }
    }
    WrapperMembership(f, System);
  }

  /** The line that includes one header. */
  function IncludeLine(header: string): (l: string)
    ensures |l| == |header| + 12
  {
    "#include <" + header + ">\n"
  }

  /** The text of the wrapper header: one include line per header, in order. */
  function WrapperText(headers: seq<string>): (t: string)
    ensures |t| >= 12 * |headers|
    ensures t == [] <==> headers == []
    ensures headers != [] ==> t[..10] == "#include <" && t[|t| - 1] == '\n'
  {
    if headers == [] then ""
    else IncludeLine(headers[0]) + WrapperText(headers[1..])
  }

  /** The text of a list of headers is the text of its first part followed by the text
      of the rest: each header contributes its own line, independently of the others. */
  lemma {:induction false} WrapperTextAppend(a: seq<string>, b: seq<string>)
    ensures WrapperText(a + b) == WrapperText(a) + WrapperText(b)
  {
    if a != [] {
      assert (a + b)[0] == a[0] && (a + b)[1..] == a[1..] + b;
      var line, rest := IncludeLine(a[0]), WrapperText(a[1..]);
      WrapperTextAppend(a[1..], b);
      assert WrapperText(a + b) == line + (rest + WrapperText(b));
      assert WrapperText(a) == line + rest;
    } else {
      assert a + b == b;
    }
  }

  /** The reference selection: the enabled modules of `ms`, in their order. */
  function Select(f: Features, ms: seq<SfmlModule>): seq<SfmlModule> {
    if ms == [] then []
    else (if Enabled(f, ms[0]) then [ms[0]] else []) + Select(f, ms[1..])
  }

  lemma SelectStep(f: Features, m: SfmlModule, rest: seq<SfmlModule>)
    ensures Select(f, [m] + rest) == Optional(Enabled(f, m), m) + Select(f, rest)
  {
    assert ([m] + rest)[1..] == rest;
  }

  lemma ConcatAssoc<T>(a: seq<T>, b: seq<T>, c: seq<T>)
    ensures a + (b + c) == (a + b) + c
  {
  }

  /** `generate_wrapper` includes exactly the enabled modules, System first, in the
      fixed order. */
  lemma WrapperSelectsEnabled(f: Features)
    ensures WrapperModules(f) == Select(f, MODULE_ORDER)
  {
    var sy, au, wi, gr, ne := [System], Optional(f.audio, Audio), Optional(f.window, Window),
      Optional(f.graphics, Graphics), Optional(f.network, Network);
    assert Select(f, [Network]) == ne by {
      SelectStep(f, Network, []);
      assert [Network] + [] == [Network];
    }
    assert Select(f, [Graphics, Network]) == gr + ne by {
      SelectStep(f, Graphics, [Network]);
      assert [Graphics] + [Network] == [Graphics, Network];
    }
    assert Select(f, [Window, Graphics, Network]) == wi + (gr + ne) by {
      SelectStep(f, Window, [Graphics, Network]);
      assert [Window] + [Graphics, Network] == [Window, Graphics, Network];
    }
    assert Select(f, [Audio, Window, Graphics, Network]) == au + (wi + (gr + ne)) by {
      SelectStep(f, Audio, [Window, Graphics, Network]);
      assert [Audio] + [Window, Graphics, Network] == [Audio, Window, Graphics, Network];
    }
    assert Select(f, MODULE_ORDER) == sy + (au + (wi + (gr + ne))) by {
      SelectStep(f, System, [Audio, Window, Graphics, Network]);
      assert [System] + [Audio, Window, Graphics, Network] == MODULE_ORDER;
    }
    ConcatAssoc(sy, au, wi + (gr + ne));
    ConcatAssoc(sy + au, wi, gr + ne);
    ConcatAssoc(sy + au + wi, gr, ne);
  }

  predicate NoDuplicates<T(==)>(s: seq<T>) {
    forall i, j :: 0 <= i < j < |s| ==> s[i] != s[j]
  }

  /** Selection keeps exactly the enabled members and introduces no duplicates. */
  lemma {:induction false} SelectMembers(f: Features, ms: seq<SfmlModule>, m: SfmlModule)
    ensures m in Select(f, ms) <==> m in ms && Enabled(f, m)
    ensures NoDuplicates(ms) ==> NoDuplicates(Select(f, ms))
  {
    if ms != [] {
      SelectMembers(f, ms[1..], m);
      SelectMembers(f, ms[1..], ms[0]);
      var head := Optional(Enabled(f, ms[0]), ms[0]);
      var tail := Select(f, ms[1..]);
      assert Select(f, ms) == head + tail;
      assert ms == [ms[0]] + ms[1..];
      if NoDuplicates(ms) {
        assert ms[0] !in ms[1..];
        assert NoDuplicates(ms[1..]) by {
          forall i, j | 0 <= i < j < |ms[1..]| ensures ms[1..][i] != ms[1..][j] {
            assert ms[1..][i] == ms[i + 1] && ms[1..][j] == ms[j + 1];
          }
        }
        forall i, j | 0 <= i < j < |head + tail| ensures (head + tail)[i] != (head + tail)[j] {
          if i < |head| {
            assert (head + tail)[j] == tail[j - |head|];
            assert tail[j - |head|] in tail;
          } else {
            assert (head + tail)[i] == tail[i - |head|] && (head + tail)[j] == tail[j - |head|];
          }
        }
      }
    }
  }

  /** Every module appears in the wrapper exactly when it is enabled, and no module
      appears twice. */
  lemma WrapperMembership(f: Features, m: SfmlModule)
    ensures m in WrapperModules(f) <==> Enabled(f, m)
    ensures NoDuplicates(WrapperModules(f))
  {
    WrapperSelectsEnabled(f);
    SelectMembers(f, MODULE_ORDER, m);
  }

  /** With every feature off the wrapper includes only System and links only its
      library. */
  lemma WrapperExamples()
    ensures Headers(Features(false, false, false, false)) == ["SFML/System.h"]
    ensures WrapperText(Headers(Features(false, false, false, false))) == "#include <SFML/System.h>\n"
    ensures LinkedLibraries(Features(false, false, false, false)) == ["csfml-system"]
  {
    var none := Headers(Features(false, false, false, false));
    assert none == ["SFML/System.h"];
    assert none[1..] == [];
  }

  /** With every feature on, all five modules in order, one include line each. */
  lemma AllFeaturesExample()
    ensures Headers(Features(true, true, true, true))
         == ["SFML/System.h", "SFML/Audio.h", "SFML/Window.h", "SFML/Graphics.h", "SFML/Network.h"]
    ensures WrapperText(Headers(Features(true, true, true, true)))
         == IncludeLine("SFML/System.h") + IncludeLine("SFML/Audio.h") + IncludeLine("SFML/Window.h")
          + IncludeLine("SFML/Graphics.h") + IncludeLine("SFML/Network.h")
  {
    AllFeaturesHeaders();
    FiveLines("SFML/System.h", "SFML/Audio.h", "SFML/Window.h", "SFML/Graphics.h", "SFML/Network.h");
  }

  lemma AllFeaturesHeaders()
    ensures Headers(Features(true, true, true, true))
         == ["SFML/System.h", "SFML/Audio.h", "SFML/Window.h", "SFML/Graphics.h", "SFML/Network.h"]
  {
  }

  /** The text of five headers is their five include lines, in order. */
  lemma FiveLines(a: string, b: string, c: string, d: string, e: string)
    ensures WrapperText([a, b, c, d, e])
         == IncludeLine(a) + IncludeLine(b) + IncludeLine(c) + IncludeLine(d) + IncludeLine(e)
  {
    var la, lb, lc, ld, le := IncludeLine(a), IncludeLine(b), IncludeLine(c), IncludeLine(d), IncludeLine(e);
    assert [e][1..] == [];
    assert WrapperText([e]) == le + [] == le;
    assert [d, e][1..] == [e];
    assert WrapperText([d, e]) == ld + le;
    assert [c, d, e][1..] == [d, e];
    assert WrapperText([c, d, e]) == lc + (ld + le);
    assert [b, c, d, e][1..] == [c, d, e];
    assert WrapperText([b, c, d, e]) == lb + (lc + (ld + le));
    assert [a, b, c, d, e][1..] == [b, c, d, e];
    assert WrapperText([a, b, c, d, e]) == la + (lb + (lc + (ld + le)));
    assert la + (lb + (lc + (ld + le))) == la + lb + lc + ld + le;
  }
}
