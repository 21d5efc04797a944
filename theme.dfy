/** The colour theme store: four themes, the initial one read from local
    storage, and `set`/`toggle`, which in the browser also persist the theme
    and reflect it on the document. */
module ThemeStore {
  import opened Db

  datatype Theme = Dark | Light | Tan | Cloud

  const DefaultTheme := Tan

  /** The `Theme` string of each theme. */
  function Name(t: Theme): string {
    match t
    case Dark => "dark"
    case Light => "light"
    case Tan => "tan"
    case Cloud => "cloud"
  }

  /** `['dark', 'light', 'tan', 'cloud'].includes(s)`, as a theme. */
  function Parse(s: string): (r: Option<Theme>)
    ensures r.Some? ==> Name(r.value) == s
  {
    if s == "dark" then Some(Dark)
    else if s == "light" then Some(Light)
    else if s == "tan" then Some(Tan)
    else if s == "cloud" then Some(Cloud)
    else None
  }

  /** Every theme's name reads back as that theme, so names are distinct. */
  lemma ParseName(t: Theme)
    ensures Parse(Name(t)) == Some(t)
  {
    match t
    case Dark =>
    case Light => assert "light" != "dark" by { assert |"light"| != |"dark"|; }
    case Tan => assert "tan" != "dark" && "tan" != "light" by { assert "tan"[0] != "dark"[0] && |"tan"| != |"light"|; }
    case Cloud =>
      assert "cloud" != "dark" && "cloud" != "light" && "cloud" != "tan" by {
        assert "cloud"[0] != "dark"[0] && "cloud"[0] != "light"[0] && "cloud"[0] != "tan"[0];
      }
  }

  /** `themeColors`: the meta theme-color of each theme. */
  function ThemeColor(t: Theme): (c: string)
    ensures |c| == 7 && c[0] == '#'
    ensures forall i :: 1 <= i < 7 ==> c[i] in "0123456789abcdef"
  {
    match t
    case Dark => "#111111"
    case Light => "#ffffff"
    case Tan => "#faf8f5"
    case Cloud => "#f5f5f5"
  }

  /** What reading the `blog-theme` entry gave: its value, or an exception. */
  datatype Read = Value(saved: Option<string>) | Throws

  /** `getInitialTheme`. */
  function GetInitialTheme(browser: bool, read: Read): (t: Theme)
    ensures browser && read.Value? && read.saved.Some? && Parse(read.saved.value).Some? ==>
              t == Parse(read.saved.value).value && Name(t) == read.saved.value
    ensures !(browser && read.Value? && read.saved.Some? && Parse(read.saved.value).Some?) ==> t == Tan
  {
    if !browser then DefaultTheme
    else match read
      case Throws => DefaultTheme
      case Value(saved) =>
        if saved.Some? && saved.value != [] && Parse(saved.value).Some? then Parse(saved.value).value
        else DefaultTheme
  }

  /** The order `toggle` walks. */
  const Themes := [Dark, Light, Tan, Cloud]

  function IndexOf(t: Theme): (i: nat)
    ensures i < |Themes| && Themes[i] == t
  {
    match t
    case Dark => 0
    case Light => 1
    case Tan => 2
    case Cloud => 3
  }

  /** The theme after `toggle`: `themes[(currentIndex + 1) % themes.length]`. */
  function Next(t: Theme): (n: Theme)
    ensures n != t
  {
    Themes[(IndexOf(t) + 1) % |Themes|]
  }

  function Toggled(t: Theme, n: nat): Theme {
    if n == 0 then t else Next(Toggled(t, n - 1))
  }

  /** One toggle: dark to light to tan to cloud and back to dark. */
  lemma NextSteps()
    ensures Next(Dark) == Light && Next(Light) == Tan && Next(Tan) == Cloud && Next(Cloud) == Dark
  {
    assert Themes[1] == Light && Themes[2] == Tan && Themes[3] == Cloud && Themes[0] == Dark;
  }

  /** Four toggles visit every theme once and come back to the start. */
  lemma ToggleCycle(t: Theme)
    ensures Toggled(t, 4) == t
    ensures {Toggled(t, 0), Toggled(t, 1), Toggled(t, 2), Toggled(t, 3)} == {Dark, Light, Tan, Cloud}
  {
    NextSteps();
    assert Toggled(t, 4) == Next(Next(Next(Next(t))));
  }

  /** Reloading the page after `set` or `toggle` in the browser starts from
      the theme they stored. */
  lemma ReloadKeepsTheme(t: Theme)
    ensures GetInitialTheme(true, Value(Some(Name(t)))) == t
  {
    ParseName(t);
  }

  /** The store, the `blog-theme` entry of local storage, the root element's
      `data-theme` attribute and the meta theme-color tag, if the page has one. */
  class Store {
    var value: Theme
    const browser: bool
    var stored: Option<string>
    var dataTheme: Option<string>
    const hasMeta: bool
    var metaColor: string

    /** The store created by `createThemeStore`. */
    constructor (browser: bool, read: Read, stored: Option<string>, dataTheme: Option<string>, hasMeta: bool, metaColor: string)
      requires read.Value? ==> read.saved == stored
      ensures value == GetInitialTheme(browser, read)
      ensures this.browser == browser && this.stored == stored && this.dataTheme == dataTheme
      ensures this.hasMeta == hasMeta && this.metaColor == metaColor
    {
      value := GetInitialTheme(browser, read);
      this.browser := browser;
      this.stored := stored;
      this.dataTheme := dataTheme;
      this.hasMeta := hasMeta;
      this.metaColor := metaColor;
    }

    /** In the browser, storage and the document show the store's theme. */
    ghost predicate Reflected()
      reads this
    {
      stored == Some(Name(value)) && dataTheme == Some(Name(value)) && (hasMeta ==> metaColor == ThemeColor(value))
    }

    /** Writes the theme to storage and the document, in the browser only. */
    method Apply(t: Theme)
      modifies this
      ensures value == old(value)
      ensures browser ==> stored == Some(Name(t)) && dataTheme == Some(Name(t)) &&
                          metaColor == (if hasMeta then ThemeColor(t) else old(metaColor))
      ensures !browser ==> stored == old(stored) && dataTheme == old(dataTheme) && metaColor == old(metaColor)
    {
      if browser {
        stored := Some(Name(t));
        dataTheme := Some(Name(t));
        if hasMeta {
          metaColor := ThemeColor(t);
        }
      }
    }

    /** `set(theme)`. */
    method Set(t: Theme)
      modifies this
      ensures value == t
      ensures browser ==> Reflected() && (!hasMeta ==> metaColor == old(metaColor))
      ensures !browser ==> stored == old(stored) && dataTheme == old(dataTheme) && metaColor == old(metaColor)
    {
      value := t;
      Apply(t);
    }

    /** `toggle()`. */
    method Toggle()
      modifies this
      ensures value == Next(old(value))
      ensures browser ==> Reflected() && (!hasMeta ==> metaColor == old(metaColor))
      ensures !browser ==> stored == old(stored) && dataTheme == old(dataTheme) && metaColor == old(metaColor)
    {
      var newTheme := Next(value);
      Apply(newTheme);
      value := newTheme;
    }
  }
}
