/** The errors the engine throws (src/recycle.js) and their messages. */
module Errors {
  import opened JsValues

  datatype Error =
    | RootAlreadySet                           // createComponent, second parentless node
    | CalledWithoutKey(name: string)           // jsxHandler, keyless duplicate on first render
    | CalledWithSameKey(name: string, key: Key) // jsxHandler, keyed duplicate on first render
    | KeyInUse(name: string, key: Key)         // registerComponent
    | SourceAlreadyDefined(source: string)     // setSource
    | TypeError                                // a property read on `undefined`

  function Message(e: Error): string
  {
    match e
    case RootAlreadySet => "rootComponent already set"
    case CalledWithoutKey(name) =>
      "Recycle component '" + name + "' called multiple times without the key property"
    case CalledWithSameKey(name, key) =>
      "Recycle component '" + name + "' called multiple times with the same key property '"
      + PropertyName(key) + "'"
    case KeyInUse(name, key) =>
      "Could not register recycle component '" + name + "'. Key '" + PropertyName(key)
      + "' is already in use."
    case SourceAlreadyDefined(source) =>
      "Could not set component source. '" + source + "' is already defined."
    case TypeError => "TypeError"
  }

  /** The keyless and the keyed duplicate report can never be confused, whatever
      the names and the key: the first ends in "property", the second in a quote. */
  lemma DuplicateMessagesDiffer(n1: string, n2: string, k: Key)
    ensures Message(CalledWithoutKey(n1)) != Message(CalledWithSameKey(n2, k))
  {
    var m1 := Message(CalledWithoutKey(n1));
    var m2 := Message(CalledWithSameKey(n2, k));
    assert m1[|m1| - 1] == 'y';
    assert m2[|m2| - 1] == '\'';
  }
}
