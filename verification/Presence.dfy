/** ActiveSupport's blank? on JSON values. */
module Presence {
  import opened Json
  import opened Text

  /** nil, false, white space, and empty collections are blank; every number is present. */
  predicate Blank(v: Value) {
    match v
    case Null => true
    case Bool(b) => !b
    case Num(_) => false
    case Str(s) => BlankText(s)
    case Arr(items) => items == []
    case Obj(fields) => fields == map[]
  }

  /** What ActionController::Parameters#require accepts: a present value, or false. */
  predicate Required(v: Value) {
    !Blank(v) || v == Bool(false)
  }

  /** Booleans and numbers, text with a character that is no white space, and collections with something in them. */
  lemma RequiredValues(v: Value)
    ensures Required(v) <==> match v
                             case Null => false
                             case Bool(_) => true
                             case Num(_) => true
                             case Str(s) => exists i :: 0 <= i < |s| && !IsSpace(s[i])
                             case Arr(items) => |items| > 0
                             case Obj(fields) => exists k :: k in fields
  {
    if v.Obj? && v.fields != map[] {
      assert v.fields.Keys != {};
      var k :| k in v.fields.Keys;
    }
  }
}
