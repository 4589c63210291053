/**
 * Colour data of the keycap editor. Colours are opaque strings: nothing
 * parses or validates them. `fill` maps each key element of the diagram to
 * the `fill` attribute of its first `rect`; `stored` is the colour table
 * (`keyColorData[key].color`); `codes` is the active-key list (`codeList`).
 */
module Colors {
  import opened Selection

  type Colour = string

  /** The keys whose entry in the active-key list is `true`. */
  function Active(codes: map<KeyId, bool>): set<KeyId> {
    set k | k in codes && codes[k]
  }

  /**
   * `base` with the entries for `keys` taken from `src`. With the fills as
   * base and the colour table as source it is the effect of `resetColor`;
   * with the roles swapped it is the effect of `saveColor`.
   */
  function Overlay(base: map<KeyId, Colour>, keys: set<KeyId>, src: map<KeyId, Colour>): (r: map<KeyId, Colour>)
    requires keys <= src.Keys
    ensures r.Keys == base.Keys
  {
    map k | k in base :: if k in keys then src[k] else base[k]
  }

  /** The fills after a colour-change event: every key of `keys` shows `hex`. */
  function Painted(fill: map<KeyId, Colour>, keys: set<KeyId>, hex: Colour): (r: map<KeyId, Colour>)
    ensures r.Keys == fill.Keys
  {
    map k | k in fill :: if k in keys then hex else fill[k]
  }

  /**
   * Copying the keys one way and then back changes nothing: `saveColor`
   * followed by `resetColor` leaves every fill as it was, and (with the
   * roles swapped) `resetColor` followed by `saveColor` leaves every stored
   * colour as it was.
   */
  lemma OverlayRoundTrip(a: map<KeyId, Colour>, keys: set<KeyId>, b: map<KeyId, Colour>)
    requires keys <= a.Keys && keys <= b.Keys
    ensures Overlay(a, keys, Overlay(b, keys, a)) == a
  {
  }

  /** Restoring twice is restoring once. */
  lemma RestoreIdempotent(fill: map<KeyId, Colour>, keys: set<KeyId>, stored: map<KeyId, Colour>)
    requires keys <= stored.Keys
    ensures Overlay(Overlay(fill, keys, stored), keys, stored) == Overlay(fill, keys, stored)
  {
  }

  /**
   * Restoring discards any colour change made to restored keys since the
   * last save: uncommitted edits leave no trace.
   */
  lemma RestoreDiscardsPaint(fill: map<KeyId, Colour>, painted: set<KeyId>, hex: Colour, keys: set<KeyId>, stored: map<KeyId, Colour>)
    requires painted <= keys <= stored.Keys
    ensures Overlay(Painted(fill, painted, hex), keys, stored) == Overlay(fill, keys, stored)
  {
  }

  /** Overlaying one more key is one more single-key update: the step of the `resetColor` and `saveColor` loops. */
  lemma OverlayStep(base: map<KeyId, Colour>, keys: set<KeyId>, k: KeyId, src: map<KeyId, Colour>)
    requires keys <= src.Keys && k in src && k in base
    ensures Overlay(base, keys + {k}, src) == Overlay(base, keys, src)[k := src[k]]
  {
  }

  /** Painting one more key is one more single-key update: the step of the colour-change loop. */
  lemma PaintStep(fill: map<KeyId, Colour>, keys: set<KeyId>, k: KeyId, hex: Colour)
    requires k in fill
    ensures Painted(fill, keys + {k}, hex) == Painted(fill, keys, hex)[k := hex]
  {
  }
}
