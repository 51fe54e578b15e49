/** The key names scripts use and the windowing library's keys
    (src/natives/ui.rs, `name_to_key` and `key_to_name`). */
module Keys {
  import opened Wrappers

  /** The keys the two mappings mention; every other key of the windowing
      library is `OtherKey`. */
  datatype Key =
    | Key0 | Key1 | Key2 | Key3 | Key4 | Key5 | Key6 | Key7 | Key8 | Key9
    | NumPad0 | NumPad1 | NumPad2 | NumPad3 | NumPad4
    | NumPad5 | NumPad6 | NumPad7 | NumPad8 | NumPad9
    | Equal | Minus | NumPadMinus | Slash | NumPadSlash | NumPadAsterisk
    | Enter | NumPadEnter | Backspace | Escape | Period | NumPadDot | C
    | OtherKey

  /** The names a script may ask about. */
  const KeyNames: set<string> := {
    "0", "1", "2", "3", "4", "5", "6", "7", "8", "9",
    "Plus", "Minus", "Asterisk", "Slash", "Enter", "Backspace", "Escape", "Period", "C"
  }

  /** The key a name stands for. `Asterisk` shares the `8` key, as on a
      keyboard where `*` is shift-8. Unknown names have no key. */
  function NameToKey(name: string): (k: Option<Key>)
    ensures k.Some? <==> name in KeyNames
    ensures k.Some? ==> k.value != OtherKey && !IsNumPad(k.value)
  {
    match name
    case "0" => Some(Key0)
    case "1" => Some(Key1)
    case "2" => Some(Key2)
    case "3" => Some(Key3)
    case "4" => Some(Key4)
    case "5" => Some(Key5)
    case "6" => Some(Key6)
    case "7" => Some(Key7)
    case "8" => Some(Key8)
    case "9" => Some(Key9)
    case "Plus" => Some(Equal)
    case "Minus" => Some(Minus)
    case "Asterisk" => Some(Key8)
    case "Slash" => Some(Slash)
    case "Enter" => Some(Enter)
    case "Backspace" => Some(Backspace)
    case "Escape" => Some(Escape)
    case "Period" => Some(Period)
    case "C" => Some(C)
    case _ => None
  }

  predicate IsNumPad(k: Key) {
    k.NumPad0? || k.NumPad1? || k.NumPad2? || k.NumPad3? || k.NumPad4? ||
    k.NumPad5? || k.NumPad6? || k.NumPad7? || k.NumPad8? || k.NumPad9? ||
    k.NumPadMinus? || k.NumPadSlash? || k.NumPadAsterisk? || k.NumPadEnter? || k.NumPadDot?
  }

  /** The name a pressed key is reported under: a keypad key is named
      like the main key with the same label, and a key without a name
      gives the empty string. */
  function KeyToName(k: Key): (name: string)
    ensures name == "" <==> k == OtherKey
    ensures name != "" ==> name in KeyNames
  {
    match k
    case Key0 | NumPad0 => "0"
    case Key1 | NumPad1 => "1"
    case Key2 | NumPad2 => "2"
    case Key3 | NumPad3 => "3"
    case Key4 | NumPad4 => "4"
    case Key5 | NumPad5 => "5"
    case Key6 | NumPad6 => "6"
    case Key7 | NumPad7 => "7"
    case Key8 | NumPad8 => "8"
    case Key9 | NumPad9 => "9"
    case Equal => "Plus"
    case Minus | NumPadMinus => "Minus"
    case Slash | NumPadSlash => "Slash"
    case NumPadAsterisk => "Asterisk"
    case Enter | NumPadEnter => "Enter"
    case Backspace => "Backspace"
    case Escape => "Escape"
    case Period | NumPadDot => "Period"
    case C => "C"
    case OtherKey => ""
  }

  /** Naming a key and looking the name up again gives back the name,
      except `Asterisk`, which comes back as `8`. */
  lemma NameRoundTrip(name: string)
    requires name in KeyNames
    ensures KeyToName(NameToKey(name).value) == (if name == "Asterisk" then "8" else name)
  {
  }

  /** Every key outside the keypad that has a name is the key its name
      stands for; a keypad key's name stands for the main key with the
      same label, except `Asterisk`, which stands for the `8` key. */
  lemma KeyRoundTrip(k: Key)
    requires k != OtherKey
    ensures NameToKey(KeyToName(k)).Some?
    ensures !IsNumPad(k) ==> NameToKey(KeyToName(k)) == Some(k)
    ensures k != NumPadAsterisk ==> KeyToName(NameToKey(KeyToName(k)).value) == KeyToName(k)
    ensures k == NumPadAsterisk ==> NameToKey(KeyToName(k)) == Some(Key8)
  {
  }
}
