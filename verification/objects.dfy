/** Reading a property of a plain JavaScript object (`{}`) whose own
    properties are given by a map: a key the object lacks still finds what
    every object inherits from `Object.prototype`. Both the catalog of
    assets/admin-excel.js and the variable values of
    src/components/SimplePillEditor.jsx are read this way. */
module Objects {
  /** The properties of `Object.prototype`. Each reads as a function, except
      `__proto__`, which reads as the prototype object; none reads as
      `undefined`, and none has a `trim` method or a `description` field. */
  const InheritedNames: set<string> := {
    "constructor", "hasOwnProperty", "isPrototypeOf", "propertyIsEnumerable",
    "toLocaleString", "toString", "valueOf", "__proto__",
    "__defineGetter__", "__defineSetter__", "__lookupGetter__", "__lookupSetter__"}

  /** What `obj[key]` reads: an own value, an inherited property, or
      `undefined`. */
  datatype Prop<V> = Own(value: V) | Inherited | Undefined

  /** `obj[key]`: the own property when there is one, else the inherited one
      when there is one. */
  function Get<V>(obj: map<string, V>, key: string): (r: Prop<V>)
    ensures r.Own? <==> key in obj
    ensures r.Own? ==> r.value == obj[key]
    ensures r.Inherited? <==> key !in obj && key in InheritedNames
    ensures r.Undefined? <==> key !in obj && key !in InheritedNames
  {
    if key in obj then Own(obj[key]) else if key in InheritedNames then Inherited else Undefined
  }
}
