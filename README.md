# Greeting App — a Dafny model of `greet`

The repository's Greeting App is a web form: a text box for a name and a text
output. The only logic the app contains is the handler `greet(name)` in
`App.py`. If the name is falsy, meaning `None` or the empty string, it is
replaced by `"World"`. The result is then the string `"Hello, " + name + "!"`.

This project models that handler as pure Dafny functions in module `App`
(`App.dfy`). The argument has type `Option<string>` (module `Wrappers`,
`Wrappers.dfy`): `None` stands for Python's `None`, and `Some(s)` for a
Python `str`. Python's `not name` holds for `None` and `""` and for no other
such value; the model spells out that test. A name made only of blanks is therefore kept
verbatim.

`NameOf` is the partner of `Greet`. It reads the name back out of a greeting,
and returns `None` for text that `Greet` cannot produce. The lemmas connect the
two in both directions. From that follow injectivity and the single collision:
`greet("World") == greet("")`.

`Greet` has no precondition, so it is total: every argument gets a greeting,
and there is no error path. This matches the source.

## Model

| member | source | states |
|---|---|---|
| App.DisplayName | App.py:4-5 | the name shown is never empty; it is "World" exactly when the argument is None, "" or "World"; a non-empty string is kept verbatim (no trimming) |
| App.Greet | App.py:3-6 | total; the greeting starts with "Hello, ", ends with "!", is at least 9 long; its length is 13 for None or "" and \|name\| + 8 otherwise; None and "" get exactly "Hello, World!"; any non-empty name gets exactly "Hello, " + name + "!" |
| App.NameOf | App.py:6 | a name read back from a text is non-empty, and the text is exactly "Hello, " + that name + "!" |
| App.NameOfGreet | App.py:6 | the greeting of any argument reads back as the displayed name, inserted verbatim |
| App.GreetNameOf | App.py:6 | every text that reads back as a name is exactly the greeting of that name |
| App.GreetSameIff | App.py:4-6 | two arguments get the same greeting if and only if they display the same name |
| App.GreetInjective | App.py:4-6 | for non-empty names, equal greetings hold if and only if the names are equal |
| App.DefaultCollision | App.py:4-6 | an argument is greeted "Hello, World!" if and only if it is None, "" or "World" |
| App.BlankNameKept | App.py:4 | the name " " is not replaced and gives "Hello,  !"; both "" and None give "Hello, World!" |

## Left out

- The `gr.Interface` construction (App.py:9-15): text box, output and title configuration of a UI library that is not part of this model.
- `demo.launch()` under `__main__` (App.py:18-19): starts a web server, which is I/O.
- Arguments that are neither `None` nor `str`: Python's `not name` and the f-string would also accept numbers or lists, but the text box delivers only strings. The model's argument type admits only `None` and strings.
- The chat and retrieval-augmented scripts of the repository are not part of this model. They consist of HTTP calls to an inference server and calls into PDF, embedding and vector-search libraries.
- Strings with lone surrogates: a Dafny `string` holds only Unicode scalar values, so the lone surrogate code points a Python `str` can carry are outside the model. For every other string, `|name|` is Python's `len(name)`.
