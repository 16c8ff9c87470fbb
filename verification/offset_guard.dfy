/**
  The header guard applied before either strategy runs: when the carrier's
  file name ends with an image extension, an offset below 1024 is raised to
  1024 so that the image header is left alone.
*/
module OffsetGuard {

  /** The smallest offset used for image carriers. */
  const HEADER_GUARD: int := 1024

  /** The extensions that mark an image carrier; the comparison is case-sensitive. */
  const IMAGE_EXTENSIONS: seq<string> := [".jpg", ".jpeg", ".png"]

  predicate EndsWith(s: string, suffix: string)
  {
    |suffix| <= |s| && s[|s| - |suffix|..] == suffix
  }

  /** The file name ends with one of the image extensions, with exactly that case. */
  predicate IsImageName(name: string)
  {
    exists i :: 0 <= i < |IMAGE_EXTENSIONS| && EndsWith(name, IMAGE_EXTENSIONS[i])
  }

  /**
    The offset the strategies are given: the requested one, raised to 1024 for
    an image carrier when it is smaller. The result is never below the request,
    is at least 1024 for an image carrier, and differs from the request only
    when that was needed.
  */
  function EffectiveOffset(name: string, requested: int): (r: int)
    ensures r >= requested
    ensures IsImageName(name) ==> r >= HEADER_GUARD
    ensures r == requested || (IsImageName(name) && requested < HEADER_GUARD && r == HEADER_GUARD)
  {
    if IsImageName(name) && requested < HEADER_GUARD then HEADER_GUARD else requested
  }

  /**
    The guard picks the least admissible offset: any offset that is at least
    the request, and at least 1024 for an image carrier, is at least the one
    chosen.
  */
  lemma EffectiveOffsetLeast(name: string, requested: int, v: int)
    requires v >= requested
    requires IsImageName(name) ==> v >= HEADER_GUARD
    ensures EffectiveOffset(name, requested) <= v
  {
  }

  /** Applying the guard twice changes nothing more. */
  lemma EffectiveOffsetIdempotent(name: string, requested: int)
    ensures EffectiveOffset(name, EffectiveOffset(name, requested)) == EffectiveOffset(name, requested)
  {
  }

  /** Each listed extension marks an image carrier. */
  lemma ImageExtensions(stem: string)
    ensures IsImageName(stem + ".jpg")
    ensures IsImageName(stem + ".jpeg")
    ensures IsImageName(stem + ".png")
  {
    assert EndsWith(stem + ".jpg", IMAGE_EXTENSIONS[0]) by {
      assert (stem + ".jpg")[|stem|..] == ".jpg";
    }
    assert EndsWith(stem + ".jpeg", IMAGE_EXTENSIONS[1]) by {
      assert (stem + ".jpeg")[|stem|..] == ".jpeg";
    }
    assert EndsWith(stem + ".png", IMAGE_EXTENSIONS[2]) by {
      assert (stem + ".png")[|stem|..] == ".png";
    }
  }

  /**
    The comparison is case-sensitive: an upper-case extension is not an image
    name, so a small offset is kept for it.
  */
  lemma UpperCaseNotGuarded()
    ensures !IsImageName("photo.JPG")
    ensures EffectiveOffset("photo.JPG", 0) == 0
    ensures EffectiveOffset("photo.jpg", 0) == HEADER_GUARD
  {
    ImageExtensions("photo");
    assert !EndsWith("photo.JPG", IMAGE_EXTENSIONS[0]) by {
      assert "photo.JPG"[5..] != ".jpg";
    }
    assert !EndsWith("photo.JPG", IMAGE_EXTENSIONS[1]) by {
      assert "photo.JPG"[4..] != ".jpeg";
    }
    assert !EndsWith("photo.JPG", IMAGE_EXTENSIONS[2]) by {
      assert "photo.JPG"[5..] != ".png";
    }
  }
}
