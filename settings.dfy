/**
 * The plugin's entry point `makeFilterable` (make_filterable.js:43-70): the
 * defaults merged with the caller's options, and which controller each element
 * of the jQuery selection gets.
 */
module Settings {
  /** The JavaScript values an option can hold, as far as the plugin tells them apart. */
  datatype JsValue =
    | Undefined
    | Null
    | Str(s: string)       // class names, messages, selectors
    | Reference(id: nat)   // a DOM element, jQuery object or callback

  /** A plain options object: property name to value. */
  type Options = map<string, JsValue>

  /** `$.extend` copies a property unless its value is undefined. */
  predicate Given(options: Options, key: string) {
    key in options && options[key] != Undefined
  }

  /** `settings.k != null` in JavaScript: neither null nor undefined. */
  predicate Present(settings: Options, key: string) {
    key in settings && settings[key] != Undefined && settings[key] != Null
  }

  /** `$.extend(defaults, options)`: every default, overridden by every property of
      `options` whose value is not undefined. */
  function Extend(defaults: Options, options: Options): (r: Options)
    ensures forall k :: k in r <==> k in defaults || Given(options, k)
    ensures forall k :: Given(options, k) ==> r[k] == options[k]
    ensures forall k :: k in defaults && !Given(options, k) ==> r[k] == defaults[k]
  {
    map k | k in defaults.Keys + options.Keys && (k in defaults || Given(options, k))
      :: if Given(options, k) then options[k] else defaults[k]
  }

  const SelectDefaults: Options := map[
    "buttonClass" := Str("filterable-button"),
    "dropdownClass" := Str("filterable-dropdown"),
    "noMatchClass" := Str("filterable-no-match"),
    "noMatchMessage" := Str("No Matches")]

  const TableDefaults: Options := map["valueSelector" := Str("td")]

  /** The kind of page element, as `$(this).is(...)` tells it. */
  datatype Element = SelectField | TableElement | OtherElement

  /** What `makeFilterable` leaves on one element. */
  datatype Attachment =
    | SelectController(settings: Options)  // new FilterableSelect(this, settings)
    | TableController(settings: Options)   // new FilterableTable(this, settings)
    | MissingSearchField                   // logs a message, attaches nothing
    | Untouched                            // not a select or table, or a legacy browser

  /** The body of the `each` callback for one element. */
  function Attach(element: Element, options: Options): (r: Attachment)
    ensures r.SelectController? <==> element == SelectField
    ensures r.TableController? <==> element == TableElement && Present(options, "searchField")
    ensures r.MissingSearchField? <==> element == TableElement && !Present(options, "searchField")
    ensures r.SelectController? ==>
      forall k :: k in SelectDefaults ==>
        k in r.settings && r.settings[k] == (if Given(options, k) then options[k] else SelectDefaults[k])
    ensures r.TableController? ==>
      "searchField" in r.settings && r.settings["searchField"] == options["searchField"]
      && "valueSelector" in r.settings && r.settings["valueSelector"] == (if Given(options, "valueSelector") then options["valueSelector"] else Str("td"))
  {
    match element
    case SelectField => SelectController(Extend(SelectDefaults, options))
    case TableElement =>
      var settings := Extend(TableDefaults, options);
      assert Present(settings, "searchField") <==> Present(options, "searchField");
      if Present(settings, "searchField") then TableController(settings) else MissingSearchField
    case OtherElement => Untouched
  }

  /** `$(selection).makeFilterable(options)`: nothing at all on Internet Explorer 6
      or 7, otherwise each element handled on its own. */
  function MakeFilterable(legacyBrowser: bool, elements: seq<Element>, options: Options): (r: seq<Attachment>)
    ensures |r| == |elements|
    ensures legacyBrowser ==> forall i :: 0 <= i < |r| ==> r[i] == Untouched
    ensures !legacyBrowser ==> forall i :: 0 <= i < |r| ==> r[i] == Attach(elements[i], options)
  {
    if legacyBrowser then seq(|elements|, _ => Untouched)
    else seq(|elements|, i requires 0 <= i < |elements| => Attach(elements[i], options))
  }

  /** With no options a select gets the four documented defaults, and a table gets
      no controller because it has no search field. */
  lemma DefaultsWithoutOptions()
    ensures Attach(SelectField, map[]) == SelectController(SelectDefaults)
    ensures Attach(TableElement, map[]) == MissingSearchField
  {
    assert Extend(SelectDefaults, map[]) == SelectDefaults;
  }

  /** A caller's option wins over the default; an explicitly undefined one does not. */
  lemma CallerOverridesDefault(message: string)
    ensures Attach(SelectField, map["noMatchMessage" := Str(message)]).settings["noMatchMessage"] == Str(message)
    ensures Attach(SelectField, map["noMatchMessage" := Undefined]).settings["noMatchMessage"] == Str("No Matches")
  {
    assert "noMatchMessage" in SelectDefaults;
  }

  /** A null search field counts as missing, like an absent one. */
  lemma NullSearchFieldIsMissing(options: Options)
    requires "searchField" in options && options["searchField"] == Null
    ensures Attach(TableElement, options) == MissingSearchField
  {
  }
}
