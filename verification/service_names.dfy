/** The serviceNames table of createWhatsAppMessage and the expression
    serviceNames[service] || service that turns a service code into the text
    shown in the message.

    The table is a plain object literal, so a property read on it also finds
    the members every object inherits from Object.prototype. The expression
    as written is modelled with that lookup (DisplayServiceAsWritten); the
    rest of the model uses the intended reading, own entries only
    (DisplayService). */
module ServiceNames {

  /** The seven entries of serviceNames, code to label. */
  const Labels: map<string, string> := map[
    "acreditacion" := "Acreditación OS10",
    "asesor" := "Asesor de Seguridad",
    "consultoria" := "Consultoría en Seguridad",
    "formacion" := "Formación Especializada",
    "carabineros" := "Asesoría ante Carabineros",
    "personal" := "Contratación de Personal",
    "sociedades" := "Constitución de Sociedades"
  ]

  /** The text shown for a service code: its label when the code is one of
      the seven, the code itself otherwise. */
  function DisplayService(code: string): (shown: string)
    ensures code in Labels ==> shown == Labels[code] && |shown| > 0
    ensures code !in Labels ==> shown == code
  {
    LabelsTruthy();
    if code in Labels then Labels[code] else code
  }

  /** Every label is non-empty, so `label || service` never falls through to
      the code for one of the seven codes. */
  lemma LabelsTruthy()
    ensures |Labels| == 7
    ensures forall code :: code in Labels ==> |Labels[code]| > 0
  {
    assert Labels.Keys == {"acreditacion", "asesor", "consultoria", "formacion", "carabineros", "personal", "sociedades"};
  }

  /** Property names every object literal inherits from Object.prototype
      (section 20.1.3 of ECMA-262 and the web-browser additions of its
      Annex B.2.2). */
  const PrototypeNames: set<string> := {
    "constructor", "hasOwnProperty", "isPrototypeOf", "propertyIsEnumerable",
    "toLocaleString", "toString", "valueOf",
    "__proto__", "__defineGetter__", "__defineSetter__", "__lookupGetter__", "__lookupSetter__"
  }

  /** The JavaScript values a property read on serviceNames can produce. */
  datatype JsValue =
    | Undefined
    | Str(s: string)
    | NativeFunction(name: string)   // a built-in method of Object.prototype
    | PrototypeObject                // Object.prototype itself, via __proto__

  /** serviceNames[code] as JavaScript evaluates it: an own entry first, then
      the inherited members. Object.prototype.constructor is the function
      named Object; the other methods carry their property names. */
  function LookupAsWritten(code: string): (v: JsValue)
    ensures code in Labels ==> v == Str(Labels[code])
    ensures code !in Labels && code in PrototypeNames ==> v.NativeFunction? || v.PrototypeObject?
    ensures code !in Labels && code !in PrototypeNames ==> v == Undefined
  {
    if code in Labels then Str(Labels[code])
    else if code == "__proto__" then PrototypeObject
    else if code == "constructor" then NativeFunction("Object")
    else if code in PrototypeNames then NativeFunction(code)
    else Undefined
  }

  predicate Truthy(v: JsValue) {
    match v
    case Undefined => false
    case Str(s) => |s| > 0
    case NativeFunction(_) => true
    case PrototypeObject => true
  }

  /** Conversion to text by the template literal. Built-in functions render
      in the NativeFunction form of section 20.2.3.5 of ECMA-262; the exact
      spacing inside it varies between engines. */
  function Render(v: JsValue): string {
    match v
    case Undefined => "undefined"
    case Str(s) => s
    case NativeFunction(name) => "function " + name + "() { [native code] }"
    case PrototypeObject => "[object Object]"
  }

  /** serviceNames[service] || service, with the inherited members. */
  function DisplayServiceAsWritten(code: string): (shown: string)
    ensures code in Labels ==> shown == Labels[code]
    ensures code !in Labels && code !in PrototypeNames ==> shown == code
  {
    LabelsTruthy();
    var v := LookupAsWritten(code);
    if Truthy(v) then Render(v) else code
  }

  /** The two readings agree on every code that is not an inherited
      property name, which covers every code the form's selector offers. */
  lemma AgreeOffPrototype(code: string)
    requires code !in PrototypeNames
    ensures DisplayServiceAsWritten(code) == DisplayService(code)
  {
    LabelsTruthy();
  }

  /** No inherited name is one of the seven codes. */
  lemma PrototypeNamesNotCodes()
    ensures Labels.Keys !! PrototypeNames
  {
    assert Labels.Keys == {"acreditacion", "asesor", "consultoria", "formacion", "carabineros", "personal", "sociedades"};
  }

  /** The expression as written does not fall back to the code for
      "toString": it shows the source text of a built-in function. */
  lemma ToStringLeaks()
    ensures DisplayServiceAsWritten("toString") == "function toString() { [native code] }"
  {
    PrototypeNamesNotCodes();
    assert "toString" in PrototypeNames;
    assert LookupAsWritten("toString") == NativeFunction("toString");
  }

  /** "__proto__" reaches Object.prototype itself and is shown as
      "[object Object]". */
  lemma ProtoLeaks()
    ensures DisplayServiceAsWritten("__proto__") == "[object Object]"
  {
    PrototypeNamesNotCodes();
    assert "__proto__" in PrototypeNames;
    assert LookupAsWritten("__proto__") == PrototypeObject;
  }

  /** No inherited name is shown as itself by the expression as written. */
  lemma NoFallbackForPrototypeNames(code: string)
    requires code in PrototypeNames
    ensures DisplayServiceAsWritten(code) != code
  {
    PrototypeNamesNotCodes();
    var v := LookupAsWritten(code);
    assert Render(v)[0] == 'f' || Render(v)[0] == '[';
    assert code[0] != 'f' && code[0] != '[';
  }

  /** The intended fallback holds for the corrected reading: any code outside
      the table, inherited name or not, is shown unchanged. */
  lemma FallbackToCode(code: string)
    requires code !in Labels
    ensures DisplayService(code) == code
  {
  }

  /** The labels of the form's own examples: a mapped code shows its label, an
      unknown one shows itself. */
  lemma DisplayExamples()
    ensures DisplayService("consultoria") == "Consultoría en Seguridad"
    ensures DisplayService("xyz") == "xyz"
  {
  }
}
