/**
 * What a property read on a plain JavaScript object finds besides the object's own keys:
 * the members every such object inherits from `Object.prototype` (section 20.1.3 and
 * Annex B.2.2 of ECMAScript 2024).
 */
module JsObject {
  /**
   * The inherited member names. Each reads as a function, except `__proto__`, which reads
   * as `Object.prototype` itself; so every one is truthy and none is a string.
   */
  const PrototypeMembers: set<string> := {
    "constructor", "hasOwnProperty", "isPrototypeOf", "propertyIsEnumerable",
    "toLocaleString", "toString", "valueOf",
    "__proto__", "__defineGetter__", "__defineSetter__", "__lookupGetter__", "__lookupSetter__"
  }

  /**
   * The accessor property of Annex B.2.2.1: assigning it a value that is neither an object
   * nor null does nothing, so a primitive stored under this key is dropped.
   */
  const ProtoKey: string := "__proto__"
}
