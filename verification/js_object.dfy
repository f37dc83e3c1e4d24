/** Property lookup on a JavaScript object literal. `obj[key]` finds the
    object's own properties and, failing those, the members every object
    literal inherits from `Object.prototype`. */
module JsObject {

  /** The members an object literal `{}` inherits, each a function or (for
      `__proto__`) the prototype object itself: all of them truthy, none an
      array or a string. */
  const PrototypeMembers: set<string> := {
    "constructor", "__proto__", "toString", "toLocaleString", "valueOf",
    "hasOwnProperty", "isPrototypeOf", "propertyIsEnumerable",
    "__defineGetter__", "__defineSetter__", "__lookupGetter__", "__lookupSetter__"
  }

  /** `key` names an inherited member of every object literal. */
  predicate IsInherited(key: string) {
    key in PrototypeMembers
  }

  /** What `obj[key]` evaluates to. */
  datatype Property<V> = Own(value: V) | Inherited(name: string) | Missing

  /** `obj[key]` for an object whose own properties are `own`. */
  function Get<V>(own: map<string, V>, key: string): (p: Property<V>)
    ensures p.Own? <==> key in own
    ensures p.Inherited? <==> key !in own && IsInherited(key)
    ensures p.Own? ==> p.value == own[key]
    ensures p.Inherited? ==> p.name == key
  {
    if key in own then Own(own[key])
    else if IsInherited(key) then Inherited(key)
    else Missing
  }
}
