/**
 * The configuration handler of config.c: the `Configuration` record that
 * the INI callback fills in, the global index of the selected palette, and
 * `get_current_palette`.
 */
module Config {
  import opened Cells
  import opened Palette

  /** A `Configuration`: slide duration in seconds, frames per second, and a palette name. */
  class Configuration {
    var duration: int
    var fps: int
    var palette: string

    /** The defaults `main` sets before reading the file. */
    constructor ()
      ensures duration == 20 && fps == 25 && palette == "default"
    {
      duration, fps, palette := 20, 25, "default";
    }
  }

  /** The static `current_palette_index` into the palette table. */
  class Selection {
    var index: int

    /** The index names an entry of the table. */
    predicate Valid()
      reads this
    {
      0 <= index < |Palettes|
    }

    /** The index starts at the first palette. */
    constructor ()
      ensures Valid() && index == 0
    {
      index := 0;
    }

    /** `get_current_palette`: always one of the built-in palettes, with all sixteen slots. */
    function Current(): (p: Palette)
      reads this
      requires Valid()
      ensures p in Palettes && WellFormed(p)
    {
      TableStops();
      Palettes[index]
    }
  }

  /** The keys `handler` recognises, all in section `slideshow`. */
  predicate Known(section: string, name: string) {
    section == "slideshow" && (name == "duration" || name == "fps" || name == "palette")
  }

  /** The first table index at or after `from` whose palette is called `name`. */
  function FindFrom(name: string, from: nat): (r: Option<nat>)
    requires from <= |Palettes|
    ensures r.Some? ==> from <= r.value < |Palettes| && Palettes[r.value].name == name
    ensures r.Some? ==> forall j :: from <= j < r.value ==> Palettes[j].name != name
    ensures r.None? ==> forall j :: from <= j < |Palettes| ==> Palettes[j].name != name
    decreases |Palettes| - from
  {
    if from == |Palettes| then None
    else if Palettes[from].name == name then Some(from)
    else FindFrom(name, from + 1)
  }

  /** The first palette called `name`, if any. */
  function FindPalette(name: string): Option<nat> {
    FindFrom(name, 0)
  }

  /**
   * The table's names are distinct, so looking up the name of entry `i`
   * finds `i` itself, and a name that is none of them finds nothing.
   */
  lemma FindPaletteExact(name: string)
    ensures forall i :: 0 <= i < |Palettes| ==> (FindPalette(name) == Some(i) <==> Palettes[i].name == name)
    ensures FindPalette(name).None? <==> name !in {"default", "pastel", "vaporwave", "rainbow"}
  {
    var r := FindPalette(name);
    assert Palettes[0].name == "default" && Palettes[1].name == "pastel";
    assert Palettes[2].name == "vaporwave" && Palettes[3].name == "rainbow";
  }

  /**
   * `handler`: `slideshow.duration` and `slideshow.fps` store `atoi` of the
   * value, `slideshow.palette` selects the first palette of that name (and
   * keeps the selection when none matches), and any other key is refused
   * with 0 and changes nothing. The name field of the record is never set.
   * `atoi` is the C library's, passed in.
   */
  method Handler(cfg: Configuration, sel: Selection, section: string, name: string, value: string,
                 atoi: string -> int) returns (r: int)
    requires sel.Valid()
    modifies cfg, sel
    ensures sel.Valid()
    ensures r == (if Known(section, name) then 1 else 0)
    ensures cfg.duration == (if section == "slideshow" && name == "duration" then atoi(value) else old(cfg.duration))
    ensures cfg.fps == (if section == "slideshow" && name == "fps" then atoi(value) else old(cfg.fps))
    ensures cfg.palette == old(cfg.palette)
    ensures sel.index == (if section == "slideshow" && name == "palette" && FindPalette(value).Some?
                          then FindPalette(value).value else old(sel.index))
  {
    if section == "slideshow" && name == "duration" {
      cfg.duration := atoi(value);
    } else if section == "slideshow" && name == "fps" {
      cfg.fps := atoi(value);
    } else if section == "slideshow" && name == "palette" {
      var i := 0;
      while i < |Palettes|
        invariant 0 <= i <= |Palettes|
        invariant FindPalette(value) == FindFrom(value, i)
        invariant sel.index == old(sel.index)
      {
        if Palettes[i].name == value {
          sel.index := i;
          break;
        }
        i := i + 1;
      }
    } else {
      return 0;
    }
    return 1;
  }
}
