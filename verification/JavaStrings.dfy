/** java.lang.String operations shared by several models. */
module JavaStrings {

  /** String.trim: drops characters up to U+0020 at both ends. */
  function Trim(s: string): string {
    if s != "" && s[0] <= ' ' then Trim(s[1..])
    else if s != "" && s[|s| - 1] <= ' ' then Trim(s[..|s| - 1])
    else s
  }

  predicate Blank(s: string) {
    forall k :: 0 <= k < |s| ==> s[k] <= ' '
  }

  /** Exactly the blanks around the text are dropped; blanks inside it stay. */
  lemma {:induction false} TrimExactly(front: string, text: string, back: string)
    requires Blank(front) && Blank(back) && (text == "" || (text[0] > ' ' && text[|text| - 1] > ' '))
    ensures Trim(front + text + back) == text
    decreases |front|, |back|
  {
    var s := front + text + back;
    if front != "" {
      assert s[1..] == front[1..] + text + back;
      TrimExactly(front[1..], text, back);
    } else if back != "" {
      var n := |back| - 1;
      if text == "" {
        assert s == back && s[1..] == "" + "" + back[1..];
        TrimExactly("", "", back[1..]);
      } else {
        assert s[..|s| - 1] == front + text + back[..n];
        TrimExactly("", text, back[..n]);
      }
    } else {
      assert s == text;
    }
  }
}
