/**
 * The rotation captcha's state and its two operations: generating a challenge
 * (crop, rotate, clean, register the accepted interval under a fresh key) and
 * checking a claimed angle against the registered interval.
 */
module Rotate {
  import opened Pixels
  import opened Options
  import Circle
  import Cleanup

  /** The accepted answers for one challenge, `(min_angle, max_angle)` in degrees. */
  datatype Interval = Interval(min: real, max: real)

  /** `(angle - leeway, angle + leeway)`: the interval registered for a drawn angle. */
  function Tolerance(angle: real, leeway: real): (iv: Interval)
    ensures (iv.min + iv.max) / 2.0 == angle   // centred on the drawn angle
    ensures iv.max - iv.min == 2.0 * leeway    // `leeway` degrees on each side
  {
    Interval(angle - leeway, angle + leeway)
  }

  /** The distance between two angles on the real line (no wrap-around at 180 degrees). */
  function Distance(a: real, b: real): (d: real)
    ensures d >= 0.0 && (d == a - b || d == b - a)
  {
    if a >= b then a - b else b - a
  }

  /** A character the alphanumeric distribution can draw: `A`-`Z`, `a`-`z` or `0`-`9`. */
  predicate IsAlphanumeric(c: char) {
    ('A' <= c <= 'Z') || ('a' <= c <= 'z') || ('0' <= c <= '9')
  }

  /** A challenge key as the generator draws it: 32 alphanumeric characters. */
  predicate IsHashKey(key: string): (ok: bool)
    ensures ok ==> |key| == 32
    ensures ok ==> forall i :: 0 <= i < |key| ==> '0' <= key[i] <= 'z'  // ASCII only, no separators
  {
    |key| == 32 && forall i :: 0 <= i < |key| ==> IsAlphanumeric(key[i])
  }

  class RotateAppState {
    /** The configuration every generation call reads. */
    const option: CaptchaOption
    /** For each issued key, the interval of angles that answer its challenge. */
    var checkMap: map<string, Interval>

    /** A state for the given options with no challenge issued yet. */
    constructor (option: CaptchaOption)
      ensures this.option == option
      ensures checkMap == map[]
    {
      this.option := option;
      checkMap := map[];
    }

    /**
     * Whether `rotate` answers the challenge issued under `hashKey`: an unknown
     * key is rejected, a known one accepts exactly the angles of its interval,
     * both ends included.
     */
    function CheckCaptcha(hashKey: string, rotate: real): (valid: bool)
      reads this
      ensures hashKey !in checkMap ==> !valid
      ensures hashKey in checkMap ==> (valid <==> checkMap[hashKey].min <= rotate <= checkMap[hashKey].max)
    {
      if hashKey in checkMap then
        var Interval(minAngle, maxAngle) := checkMap[hashKey];
        rotate >= minAngle && rotate <= maxAngle
      else
        false
    }

    /**
     * One challenge generation. The decoded source image, the drawn angle, the
     * buffer the rotation library returns for the crop, and the drawn key are
     * parameters. Returns the circular crop handed to the rotation and the
     * cleaned buffer handed to the resize; registers the key's interval.
     */
    method GenerateCaptcha(src: array2<Pixel>, angle: real, rotated: array2<Pixel>, hashKey: string)
      returns (circle: array2<Pixel>, finalImg: array2<Pixel>)
      requires |option.images| > 0
      requires 0 <= option.width && 0 <= option.height
      requires -180.0 <= angle < 180.0
      requires rotated.Length0 == Circle.Diameter(src.Length0, src.Length1)
      requires rotated.Length1 == rotated.Length0
      requires IsHashKey(hashKey)
      modifies this
      ensures Circle.IsCircleCrop(src, circle)
      ensures Cleanup.IsCleanupOf(rotated, finalImg) && Cleanup.IsClean(finalImg)
      ensures circle != src && finalImg != rotated
      ensures checkMap == old(checkMap)[hashKey := Tolerance(angle, option.leeway)]
      ensures forall k, v :: k != hashKey ==> (CheckCaptcha(k, v) <==> old(CheckCaptcha(k, v)))
    {
      var leeway := option.leeway;
      circle := Circle.ExtractCircle(src);
      finalImg := Cleanup.CleanEdges(rotated, circle.Length0);
      checkMap := checkMap[hashKey := Tolerance(angle, leeway)];
    }
  }

  /**
   * The verdict for a key registered with `Tolerance(angle, leeway)`: a claimed
   * angle is accepted exactly when it lies within `leeway` degrees of the drawn angle.
   */
  lemma IssuedChallengeVerdict(s: RotateAppState, hashKey: string, angle: real, leeway: real, rotate: real)
    requires hashKey in s.checkMap && s.checkMap[hashKey] == Tolerance(angle, leeway)
    ensures s.CheckCaptcha(hashKey, rotate) <==> Distance(rotate, angle) <= leeway
  {
  }

  /** With a non-negative leeway the drawn angle and both ends of its interval are accepted. */
  lemma IssuedChallengeAccepts(s: RotateAppState, hashKey: string, angle: real, leeway: real)
    requires hashKey in s.checkMap && s.checkMap[hashKey] == Tolerance(angle, leeway)
    requires leeway >= 0.0
    ensures s.CheckCaptcha(hashKey, angle)
    ensures s.CheckCaptcha(hashKey, angle - leeway) && s.CheckCaptcha(hashKey, angle + leeway)
  {
  }

  /** Any angle further than `leeway` from the drawn one, on either side, is rejected. */
  lemma IssuedChallengeRejectsBeyond(s: RotateAppState, hashKey: string, angle: real, leeway: real, eps: real)
    requires hashKey in s.checkMap && s.checkMap[hashKey] == Tolerance(angle, leeway)
    requires eps > 0.0
    ensures !s.CheckCaptcha(hashKey, angle + leeway + eps)
    ensures !s.CheckCaptcha(hashKey, angle - leeway - eps)
  {
  }

  /** A negative leeway registers an empty interval: every answer for that key is rejected. */
  lemma NegativeLeewayRejectsAll(s: RotateAppState, hashKey: string, angle: real, leeway: real, rotate: real)
    requires hashKey in s.checkMap && s.checkMap[hashKey] == Tolerance(angle, leeway)
    requires leeway < 0.0
    ensures !s.CheckCaptcha(hashKey, rotate)
  {
  }

  /**
   * The demo's output size and leeway (250 x 250, leeway 30). The one-image pool and
   * its path, the 200 x 300 source, the angle and the answers are example inputs.
   * After generation the drawn angle and its lower bound 30 degrees away are
   * accepted under the issued key, and an answer 31 degrees away is not.
   */
  method DemoRoundTrip() returns (atAngle: bool, atLowerEdge: bool, beyond: bool)
    ensures atAngle && atLowerEdge && !beyond
  {
    var option := CaptchaOption(["test_img/placeholder.png"], 250, 250, 30.0, CaptchaType.Rotate);
    var app := new RotateAppState(option);
    var src := new Pixel[200, 300]((i, j) => Rgba(200, 120, 40, 255));
    var rotated := new Pixel[200, 200]((i, j) => Transparent);
    var hashKey := "Qm7ZpX2aLk9TfB4wRc8NdY1sHg6VjE3u";
    var angle := 42.5;
    var circle, finalImg := app.GenerateCaptcha(src, angle, rotated, hashKey);
    atAngle := app.CheckCaptcha(hashKey, angle);
    atLowerEdge := app.CheckCaptcha(hashKey, angle - 30.0);
    beyond := app.CheckCaptcha(hashKey, angle + 31.0);
  }
}
