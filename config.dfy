/** The configuration entries the stylesheet engine reads. Their values come
    from a YAML file outside this model, so every one is a parameter. */
module Configuration {
  datatype Config = Config(
    /** `image_extensions`: the extensions the reference pattern accepts, each with its dot. */
    imageExtensions: seq<string>,
    /** `allowed_image_formats`: decoder format names Reddit accepts. */
    allowedImageFormats: seq<string>,
    /** `max_image_size`, in bytes. */
    maxImageSize: nat,
    /** `max_image_width`, in pixels. */
    maxImageWidth: nat,
    /** `max_image_count`: how many images a stylesheet may hold. */
    maxImageCount: nat,
    /** `max_css_size`, in bytes. */
    maxCssSize: nat)
}
