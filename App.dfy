/**
  The greeting handler of the Greeting App (App.py).

  `greet(name)` takes whatever the name text box hands it, falls back to the
  name "World" when that value is falsy, and returns "Hello, <name>!".
  The argument is modelled as `Option<string>`: `None` is Python's `None`
  and `Some(s)` a Python `str`. Python's `not name` holds for exactly two of
  these values, `None` and the empty string.
*/
module App {
  import opened Wrappers

  /** The greeting template is `Prefix + name + Suffix`. */
  const Prefix: string := "Hello, "
  const Suffix: string := "!"

  /** The name substituted for a falsy argument. */
  const DefaultName: string := "World"

  /** The greeting every falsy argument receives. */
  const DefaultGreeting: string := "Hello, World!"

  /**
    The name after the default substitution: a falsy argument (`not name`
    holds for `None` and "") is rebound to "World", any other string is kept verbatim (no trimming, so a name made
    only of blanks is kept).
  */
  function DisplayName(name: Option<string>): (shown: string)
    ensures shown != ""
    ensures shown == DefaultName <==> name == None || name == Some("") || name == Some(DefaultName)
    ensures forall s :: name == Some(s) && s != "" ==> shown == s
  {
    if name.None? || name.value == "" then DefaultName else name.value
  }

  /** `greet(name)`: the default substitution followed by the f-string. */
  function Greet(name: Option<string>): (greeting: string)
    ensures |greeting| >= |Prefix| + 1 + |Suffix|
    ensures greeting[..|Prefix|] == Prefix
    ensures greeting[|greeting| - |Suffix|..] == Suffix
    ensures |greeting| == if name == None || name == Some("") then 13 else |name.value| + 8
    ensures name == None || name == Some("") ==> greeting == DefaultGreeting
    ensures forall s :: name == Some(s) && s != "" ==> greeting == Prefix + s + Suffix
  {
    Prefix + DisplayName(name) + Suffix
  }

  /**
    The inverse of the template: the name inside a greeting, or `None` when
    the text is not a greeting `Greet` can produce (missing prefix or
    suffix, or nothing between them).
  */
  function NameOf(text: string): (name: Option<string>)
    ensures name.Some? ==> name.value != ""
    ensures name.Some? ==> text == Prefix + name.value + Suffix
  {
    if |text| > |Prefix| + |Suffix|
       && text[..|Prefix|] == Prefix
       && text[|text| - |Suffix|..] == Suffix
    then Some(text[|Prefix|..|text| - |Suffix|])
    else None
  }

  /** The name appears in the greeting verbatim and can be read back. */
  lemma NameOfGreet(name: Option<string>)
    ensures NameOf(Greet(name)) == Some(DisplayName(name))
  {
  }

  /** Every text `NameOf` accepts is the greeting of the name it reads. */
  lemma GreetNameOf(text: string)
    requires NameOf(text).Some?
    ensures Greet(NameOf(text)) == text
  {
  }

  /** Two arguments get the same greeting exactly when they display the same name. */
  lemma GreetSameIff(a: Option<string>, b: Option<string>)
    ensures Greet(a) == Greet(b) <==> DisplayName(a) == DisplayName(b)
  {
    if Greet(a) == Greet(b) {
      NameOfGreet(a);
      NameOfGreet(b);
    }
  }

  /** Distinct non-empty names give distinct greetings. */
  lemma GreetInjective(a: Option<string>, b: Option<string>)
    requires a.Some? && a.value != "" && b.Some? && b.value != ""
    ensures Greet(a) == Greet(b) <==> a == b
  {
    GreetSameIff(a, b);
  }

  /** The one collision: "World" is greeted like a missing or empty name. */
  lemma DefaultCollision(name: Option<string>)
    ensures Greet(name) == DefaultGreeting <==> name == None || name == Some("") || name == Some(DefaultName)
  {
    GreetSameIff(name, None);
  }

  /** A name made only of blanks is not falsy and is kept as it is. */
  lemma BlankNameKept()
    ensures Greet(Some(" ")) == "Hello,  !"
    ensures Greet(Some("")) == Greet(None) == DefaultGreeting
  {
  }
}
