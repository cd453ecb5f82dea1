/** The generator's configuration, as the command-line options declare it. */
module Options {

  /** The captcha kinds the options can name; only Rotate has an implementation. */
  datatype CaptchaType = Rotate | Slide

  /**
   * The configuration shared by every generation call: the pool of image paths,
   * the output size (signed 32-bit values in the source), the answer tolerance
   * in degrees and the captcha kind.
   */
  datatype CaptchaOption = CaptchaOption(
    images: seq<string>,
    width: int,
    height: int,
    leeway: real,
    captchaType: CaptchaType)
}
