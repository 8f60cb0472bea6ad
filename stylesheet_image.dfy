/** Stylesheet image records (utils/stylesheet/stylesheet_image.py).

    The source has a base class and three subclasses; here one class carries a
    constant `kind` tag. Attributes the source never reassigns after construction
    are constants; the reddit name, URL and remote size (reassignable on Local
    images only) and the three lifecycle flags are variables. An attribute that
    is `None` in the source is `None` here. */
module StylesheetImages {
  import opened Wrappers
  import opened Text

  datatype Kind = Local | Remote | Stored

  /** What the image decoder reports about a readable image file. */
  datatype Decoded = Decoded(width: nat, height: nat, format: string)

  /** What the HTTP HEAD request for a hosted image answered: whether the
      status was OK, the content type and the content length. */
  datatype HeadReply = HeadReply(statusOk: bool, contentType: string, contentLength: nat)

  /** The error raised for a file the decoder cannot open, naming the file. */
  datatype ImageError = InvalidImage(name: Option<string>)

  /** `os.path.join(directory, name)` for a relative `name`. */
  function PathJoin(directory: string, name: string): (p: string)
    ensures |p| >= |name| && p[|p| - |name|..] == name
  {
    if directory == [] || directory[|directory| - 1] == '/' then directory + name
    else directory + "/" + name
  }

  class StylesheetImage {
    const kind: Kind
    const filename: Option<string>
    const path: Option<string>
    const md5: Option<string>
    const usageCount: Option<nat>
    const fileSize: Option<nat>
    const width: Option<nat>
    const height: Option<nat>
    const imageFormat: Option<string>
    var redditName: Option<string>
    var url: Option<string>
    var remoteFileSize: Option<nat>
    /** Local images only. */
    var isNew: bool
    /** Remote images only. */
    var isUsed: bool
    var isReplaced: bool

    /** Which attributes each kind of record carries. */
    predicate WellFormed() {
      match kind
      case Local =>
        filename.Some? && path.Some? && md5.Some? && usageCount.Some? &&
        fileSize.Some? && width.Some? && height.Some? && imageFormat.Some?
      case Remote =>
        filename.None? && path.None? && md5.None? && usageCount.None? &&
        fileSize.None? && width.None? && height.None? && imageFormat.None?
      case Stored =>
        filename.Some? && md5.Some? && path.None? && usageCount.None? &&
        fileSize.None? && width.None? && height.None? && imageFormat.None?
    }

    /** `LocalStylesheetImage(images_dir, filename, usage_count)` once the file
        has been read (`content`) and decoded (`decoded`); `md5Of` is the MD5
        hex digest of RFC 1321, left uninterpreted. */
    constructor Local(imagesDir: string, name: string, usage: nat, content: seq<byte>,
                      decoded: Decoded, md5Of: seq<byte> -> string)
      ensures kind == Kind.Local && WellFormed()
      ensures filename == Some(name) && path == Some(PathJoin(imagesDir, name))
      ensures usageCount == Some(usage)
      ensures fileSize == Some(|content|) && md5 == Some(md5Of(content))
      ensures width == Some(decoded.width) && height == Some(decoded.height)
      ensures imageFormat == Some(decoded.format)
      ensures redditName.None? && url.None? && remoteFileSize.None?
      ensures !isNew && !isUsed && !isReplaced
    {
      kind := Kind.Local;
      filename := Some(name);
      path := Some(PathJoin(imagesDir, name));
      usageCount := Some(usage);
      fileSize := Some(|content|);
      width := Some(decoded.width);
      height := Some(decoded.height);
      imageFormat := Some(decoded.format);
      md5 := Some(md5Of(content));
      redditName, url, remoteFileSize := None, None, None;
      isNew, isUsed, isReplaced := false, false, false;
    }

    /** `RemoteStylesheetImage(reddit_name, url)`; `size` is what the size probe
        of the hosted file returned (the probe itself is network I/O). */
    constructor Remote(name: string, location: string, size: Option<nat>)
      ensures kind == Kind.Remote && WellFormed()
      ensures redditName == Some(name) && url == Some(location) && remoteFileSize == size
      ensures !isUsed && !isReplaced && IsRemoved() && !isNew
    {
      kind := Kind.Remote;
      filename, path, md5, usageCount := None, None, None, None;
      fileSize, width, height, imageFormat := None, None, None, None;
      redditName, url, remoteFileSize := Some(name), Some(location), size;
      isNew, isUsed, isReplaced := false, false, false;
    }

    /** `StoredStylesheetImage(filename, reddit_name, url, md5, remote_file_size)`:
        exactly these five attributes are set, every other one is `None`. */
    constructor Stored(name: string, storedName: string, location: string, hash: string, size: nat)
      ensures kind == Kind.Stored && WellFormed()
      ensures filename == Some(name) && redditName == Some(storedName) && url == Some(location)
      ensures md5 == Some(hash) && remoteFileSize == Some(size)
      ensures path.None? && usageCount.None? && fileSize.None?
      ensures width.None? && height.None? && imageFormat.None?
      ensures !isNew && !isUsed && !isReplaced
    {
      kind := Kind.Stored;
      filename, redditName, url, md5, remoteFileSize := Some(name), Some(storedName), Some(location), Some(hash), Some(size);
      path, usageCount, fileSize, width, height, imageFormat := None, None, None, None, None, None;
      isNew, isUsed, isReplaced := false, false, false;
    }

    /** `is_removed`: neither used nor replaced. */
    predicate IsRemoved()
      reads this`isUsed, this`isReplaced
    {
      !(isUsed || isReplaced)
    }

    /** `mark_as_new`: sets the flag and forgets the URL; no other attribute
        changes (the frame names exactly these two). */
    method MarkAsNew()
      requires kind == Kind.Local
      modifies this`isNew, this`url
      ensures isNew && url.None?
    {
      isNew := true;
      url := None;
    }

    /** `mark_as_used`: idempotent, touches only its own flag. */
    method MarkAsUsed()
      requires kind == Kind.Remote
      modifies this`isUsed
      ensures isUsed && !IsRemoved()
    {
      isUsed := true;
    }

    /** `mark_as_replaced`: idempotent, touches only its own flag. */
    method MarkAsReplaced()
      requires kind == Kind.Remote
      modifies this`isReplaced
      ensures isReplaced && !IsRemoved()
    {
      isReplaced := true;
    }

    /** The `reddit_name` setter, which only Local images have. */
    method SetRedditName(name: Option<string>)
      requires kind == Kind.Local
      modifies this`redditName
      ensures redditName == name
    {
      redditName := name;
    }

    /** The `url` setter, which only Local images have. */
    method SetUrl(location: Option<string>)
      requires kind == Kind.Local
      modifies this`url
      ensures url == location
    {
      url := location;
    }

    /** `load_remote_image_size`: the size is taken from an OK reply whose
        content type names an image; any other reply changes nothing and
        gives None. */
    method LoadRemoteImageSize(reply: HeadReply) returns (size: Option<nat>)
      modifies this`remoteFileSize
      ensures size.Some? <==> reply.statusOk && Occurs(reply.contentType, "image/")
      ensures size.Some? ==> size.value == reply.contentLength && remoteFileSize == size
      ensures size.None? ==> remoteFileSize == old(remoteFileSize)
    {
      if !reply.statusOk || !Occurs(reply.contentType, "image/") {
        return None;
      }
      remoteFileSize := Some(reply.contentLength);
      size := remoteFileSize;
    }

    /** `update_url_and_remote_size`: the URL is set, the hosted size is
        probed, and the result is the size attribute afterwards, so a failed
        probe gives back the size the image had before. */
    method UpdateUrlAndRemoteSize(location: string, reply: HeadReply) returns (size: Option<nat>)
      requires kind == Kind.Local
      modifies this`url, this`remoteFileSize
      ensures url == Some(location)
      ensures size == remoteFileSize
      ensures remoteFileSize ==
        if reply.statusOk && Occurs(reply.contentType, "image/") then Some(reply.contentLength)
        else old(remoteFileSize)
    {
      url := Some(location);
      var _ := LoadRemoteImageSize(reply);
      size := remoteFileSize;
    }

    /** The `remote_file_size` setter, which only Local images have. */
    method SetRemoteFileSize(size: Option<nat>)
      requires kind == Kind.Local
      modifies this`remoteFileSize
      ensures remoteFileSize == size
    {
      remoteFileSize := size;
    }
  }

  /** Building a Local image from a file: the decoder either reports the image's
      dimensions and format or fails, and the failure is raised naming the file. */
  method OpenLocal(imagesDir: string, name: string, usage: nat, content: seq<byte>,
                   decoded: Option<Decoded>, md5Of: seq<byte> -> string)
    returns (r: Result<StylesheetImage, ImageError>)
    ensures decoded.None? <==> r.Err?
    ensures r.Err? ==> r.error == InvalidImage(Some(name))
    ensures r.Ok? ==> fresh(r.value) && r.value.kind == Kind.Local && r.value.WellFormed()
    ensures r.Ok? ==> r.value.filename == Some(name) && r.value.fileSize == Some(|content|)
    ensures r.Ok? ==> r.value.md5 == Some(md5Of(content)) && !r.value.isNew
  {
    if decoded.None? {
      return Err(InvalidImage(Some(name)));
    }
    var image := new StylesheetImage.Local(imagesDir, name, usage, content, decoded.value, md5Of);
    return Ok(image);
  }

  /** Both Remote markers are idempotent and neither disturbs the other flag;
      after either one the record no longer counts as removed. */
  method RemoteLifecycle(name: string, location: string) returns (image: StylesheetImage)
    ensures fresh(image) && image.kind == Kind.Remote
    ensures image.isUsed && !image.isReplaced && !image.IsRemoved()
  {
    image := new StylesheetImage.Remote(name, location, None);
    assert image.IsRemoved();
    image.MarkAsUsed();
    image.MarkAsUsed();
    assert !image.isReplaced;
  }
}
