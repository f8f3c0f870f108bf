/** Ruby's notion of a blank string, used by `present?` and by presence validations. */
module Text {

  /** A character in Ruby's `[[:space:]]` class: the Unicode White_Space property. */
  predicate IsSpace(c: char) {
    || (0x09 <= c as int <= 0x0D)
    || c == ' '
    || c as int == 0x85
    || c as int == 0xA0
    || c as int == 0x1680
    || (0x2000 <= c as int <= 0x200A)
    || c as int == 0x2028
    || c as int == 0x2029
    || c as int == 0x202F
    || c as int == 0x205F
    || c as int == 0x3000
  }

  /** `s.blank?`: empty or made only of white space. A nil value is represented by "". */
  predicate IsBlank(s: string) {
    forall i :: 0 <= i < |s| ==> IsSpace(s[i])
  }
}
