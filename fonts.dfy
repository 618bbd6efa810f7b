/**
 * The font cache of baby_browser/fonts.py: `get_font` builds a font the
 * first time a (family, size, weight, slant) key is asked for and hands
 * back the cached object on every later call.
 *
 * tkinter's `Font` constructor is opaque here: a `Font` object only
 * remembers the key it was built for.
 */
module Fonts {

  /** The cache key `(family, size, weight, slant)`. */
  datatype FontKey = FontKey(family: string, size: int, weight: string, slant: string)

  /** A font as tkinter's `Font(family=..., size=..., weight=..., slant=...)` builds it. */
  class Font {
    const key: FontKey

    constructor (key: FontKey)
      ensures this.key == key
    {
      this.key := key;
    }
  }

  /** `_fonts_cache`, the module-level dict from keys to fonts. */
  class FontCache {
    var cache: map<FontKey, Font>

    /** Every cached font was built for the key it is stored under. */
    ghost predicate Valid()
      reads this
    {
      forall k | k in cache :: cache[k].key == k
    }

    constructor ()
      ensures Valid() && cache == map[]
    {
      cache := map[];
    }

    /**
     * `get_font`: on a miss a new font is built and stored under the key;
     * on a hit the cache is left as it is and the stored font returned.
     */
    method GetFont(family: string, size: int, weight: string, slant: string) returns (font: Font)
      requires Valid()
      modifies this
      ensures Valid()
      ensures var key := FontKey(family, size, weight, slant);
        && key in cache && font == cache[key] && font.key == key
        && (key in old(cache) ==> cache == old(cache))
        && (key !in old(cache) ==> fresh(font) && cache == old(cache)[key := font])
    {
      var key := FontKey(family, size, weight, slant);
      if key !in cache {
        var f := new Font(key);
        cache := cache[key := f];
      }
      font := cache[key];
    }

    /**
     * Asking twice for the same key gives the very same object, and every
     * entry that was there before the calls is still there, unchanged.
     */
    method GetFontTwice(family: string, size: int, weight: string, slant: string) returns (first: Font, second: Font)
      requires Valid()
      modifies this
      ensures Valid()
      ensures first == second
      ensures forall k | k in old(cache) :: k in cache && cache[k] == old(cache)[k]
      ensures cache.Keys == old(cache).Keys + {FontKey(family, size, weight, slant)}
    {
      first := GetFont(family, size, weight, slant);
      second := GetFont(family, size, weight, slant);
    }
  }
}
