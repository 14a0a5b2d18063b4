/** src/components/ui/editable-label.tsx: a heading that turns into a text
    field on double click and, when editing ends, reports the formatted name
    if it differs from the shown text. */
module EditableLabel {
  import opened Js
  import opened Formatting

  /** What leaving edit mode reports through `onSave`: the formatted value
      (whose `trim()` is the formatted value itself), and only when it differs
      from the shown text. */
  function BlurSave(value: string, text: string): (r: Option<string>)
    ensures r.Some? <==> Format(value) != text
    ensures r.Some? ==> r.value == Format(value) && AllWordChars(r.value)
  {
    FormatTrimmed(value);
    FormatShape(value);
    var formatted := Format(value);
    if Trim(formatted) != text then Some(Trim(formatted)) else None
  }

  /** The component: the `text` prop, the edit buffer and the edit flag. */
  class Label {
    var text: string
    var value: string
    var editing: bool

    constructor (text: string)
      ensures this.text == text && value == text && !editing
    {
      this.text := text;
      value := text;
      editing := false;
    }

    /** A new `text` prop resets the buffer to it. */
    method SyncText(newText: string)
      modifies this
      ensures text == newText && value == newText && editing == old(editing)
    {
      text := newText;
      value := newText;
    }

    method DoubleClick()
      modifies this
      ensures editing && text == old(text) && value == old(value)
    {
      editing := true;
    }

    method Change(input: string)
      modifies this
      ensures value == input && text == old(text) && editing == old(editing)
    {
      value := input;
    }

    /** `handleBlur`: edit mode ends; `saved` is what `onSave` receives, if
        it is called. */
    method Blur() returns (saved: Option<string>)
      modifies this
      ensures !editing && text == old(text) && value == old(value)
      ensures saved == BlurSave(value, text)
    {
      editing := false;
      var formatted := Format(value);
      var trimmed := Trim(formatted);
      if trimmed != text {
        saved := Some(trimmed);
      } else {
        saved := None;
      }
    }

    /** `handleKeyDown`: Enter ends editing exactly as a blur does; any other
        key changes nothing. */
    method KeyDown(key: string) returns (saved: Option<string>)
      modifies this
      ensures key == "Enter" ==> !editing && saved == BlurSave(old(value), old(text))
      ensures key != "Enter" ==> editing == old(editing) && saved.None?
      ensures text == old(text) && value == old(value)
    {
      if key == "Enter" {
        saved := Blur();
      } else {
        saved := None;
      }
    }
  }
}
