# wayback Twitter publisher, modelled in Dafny

wayback archives web pages and can announce the results on social media. Its
Twitter publisher (`publish/twitter.go`) does two things:

- **Render** turns a list of collect records into a plain-text message through
  a fixed text/template. A collect record has an archive label `Arc` and a map
  `Dst` from source URL to archived URL. Each record becomes its label and
  `":\n"`. Then comes one line `"• " + dst + "\n"` per map entry, taken in
  ascending order of the source key, and then a blank line.
- **NewTwitter / ToTwitter** form a gate. The adapter holds an optional API
  client, fixed when the adapter is built. `ToTwitter` posts the text through
  the client's status-update call only when publishing is enabled and a client
  is held.

The model has four modules:

- `Wrappers` (wrappers.dfy): `Option`. `None` stands for a nil pointer.
- `KeyOrder` (key_order.dfy): the order in which text/template visits the
  entries of a map with string keys. It defines the strict lexicographic order
  `LexLess`, proves it agrees with Go's definition of string `<` (`GoLess`),
  and proves it is a strict total order. It defines the least key
  `MinOf` and the ascending enumeration `SortedOf`, and proves `SortedOf` is the
  only strictly ascending listing of a key set.
- `Template` (template.dfy): the template as specification functions. `Block`
  is one record's text. `Execute` is a template execution, which can fail.
  `Message` is what Render returns. The lemmas cover the empty input,
  concatenation, key order, bullet counts and worked examples.
- `Publish` (twitter.dfy): the imperative side. `Publish.Client` is an abstract
  client whose ghost trace `updates` records every status-update call.
  `Publish.Twitter` has a `const client: Client?`. Its constructor is NewTwitter.
  It has `ToTwitter`, and `Render`, whose loops write the message and are
  proved equal to `Template.Message`.

text/template visits a map's keys in sorted order, not insertion order, so
bullets are ordered by source key.

## Model

| member | source | states |
|---|---|---|
| KeyOrder.LexLess | publish/twitter.go:56 | the character-by-character comparison used to sort the keys agrees with Go's string `<`: a proper prefix, or the smaller character at the first difference, comes first |
| KeyOrder.LexLessTransitive | publish/twitter.go:56 | Go's string comparison, used to sort the map keys the inner range visits, is transitive |
| KeyOrder.LexLessTotal | publish/twitter.go:56 | any two distinct keys are ordered one way or the other, so the visiting order is determined |
| KeyOrder.MinOf | publish/twitter.go:56 | the key visited first is in the map and below every other key |
| KeyOrder.SortedOf | publish/twitter.go:56 | the keys are visited once each, all of them and no others, in strictly ascending order |
| KeyOrder.SortedOfUnique | publish/twitter.go:56 | every strictly ascending listing of the keys equals the visiting order, so the order is unique |
| Template.Block | publish/twitter.go:55-58 | a record's text starts with its label and ":\n" and ends with the closing "\n"; its bullets in between are stated by BlockInKeyOrder |
| Template.Execute | publish/twitter.go:55-59 | executing the template fails exactly when some record in the input is nil; a successful run writes at least three characters per record |
| Template.Message | publish/twitter.go:52-74 | Render's result is the executed text, or "" on failure; it is "" exactly when there are no records or some record is nil |
| Template.MessageEmpty | publish/twitter.go:55-59 | rendering an empty sequence of records yields "" |
| Template.MessageSingle | publish/twitter.go:55-59 | one record renders as exactly its block |
| Template.ExecuteAppend | publish/twitter.go:55-59 | executing a ++ b yields a's text followed by b's text, and fails if either part fails |
| Template.MessageAppend | publish/twitter.go:55-73 | rendering a ++ b is rendering a followed by rendering b; a nil record in either part makes the message "" |
| Template.BlockWithoutEntries | publish/twitter.go:55-58 | a record with no Dst entries renders as its label followed by ":\n\n" |
| Template.BlockInKeyOrder | publish/twitter.go:55-58 | a block is the label, ":\n", one "• "+dst+"\n" line per key in ascending key order, then "\n"; only destinations appear |
| Template.BlockTwoEntries | publish/twitter.go:56-57 | with two entries, the bullet for the smaller source key comes first, whatever order the map was built in |
| Template.MessageBulletCount | publish/twitter.go:56-58 | if no record is nil and no label or destination contains the bullet character, the message holds one bullet per Dst entry over all records |
| Template.ExampleOneRecord | publish/twitter.go:55-59 | the record IA with a → http://x renders as "IA:\n• http://x\n\n" |
| Template.ExampleTwoEntries | publish/twitter.go:56-57 | the map {b: y, a: x} under label IA renders x before y |
| Template.ExampleTwoRecords | publish/twitter.go:55-59 | two records render as their two blocks in input order |
| Publish.Twitter.Render | publish/twitter.go:52-74 | the method's nested loops return exactly Message(vars): the expanded template, or "" when execution fails on a nil record |
| Publish.RenderBlock | publish/twitter.go:56-58 | the inner range, which takes the least remaining key at each step, writes exactly the record's block |
| Publish.Client.Update | publish/twitter.go:46 | a status-update call adds exactly its text to the client's trace of calls |
| Publish.Twitter.constructor | publish/twitter.go:23-37 | disabled publishing gives no client, even if one was supplied; enabled with a supplied client keeps that same client; enabled without one gives a fresh client built from the four configured credentials with no calls yet |
| Publish.Twitter.ToTwitter | publish/twitter.go:39-50 | returns true exactly when publishing is enabled and a client is held; then it makes exactly one update call with the text unchanged, whatever that call's outcome; otherwise it makes no call |
| Publish.DisabledNeverPosts | publish/twitter.go:24-26 | an adapter built with publishing disabled returns false and posts nothing through the supplied client, whatever settings later calls pass |
| Publish.SuppliedClientPosts | publish/twitter.go:29-49 | an adapter built with publishing enabled and a supplied client posts the text through that very client and returns true |

## Left out

- Logging (publish/twitter.go:25, 41, 47, 63, 69): a side channel that has no effect on results.
- The `context.Context` argument of ToTwitter: the code ignores it.
- OAuth1 signing and HTTP client construction (publish/twitter.go:30-33): foreign library calls. A built client records only the credentials it was built from.
- Publish.Client.Update: does not model the tweet, HTTP response or error that the network returns. Its failure flag is chosen arbitrarily, and ToTwitter ignores it, as the code does.
- The template-parse failure branch (publish/twitter.go:61-65): the template is a fixed constant that always parses. Only the execution failure is modelled, and it returns "".
- Publish.Twitter.Render: does not model the partial output the template writes into the buffer before failing, because the code discards it and returns "".
- A nil `Dst` map is modelled as an empty map. Ranging over it yields no entries in Go too.
- Fields of `wayback.Collect` other than `Arc` and `Dst`: the template does not read them. The `wayback` package is not part of this model.
- `config.Options.PublishToTwitter` is modelled as a boolean setting. Its definition in the `config` package is not part of this model. A nil `opts` is not modelled, so the `opts != nil` test at publish/twitter.go:29 always holds in the model.
- Strings are sequences of Unicode scalar values, not bytes. Go orders string keys byte-wise. For valid UTF-8 that is the same as code-point order, which `LexLess` uses. Invalid UTF-8 is not modelled.
- Character-limit enforcement: publish/twitter.go:45 marks it as not implemented.
- Concurrent callers: the adapter's only state is the client, which never changes after construction.
