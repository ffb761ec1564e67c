# Load balancer and TIL converter, in Dafny

This project models two small Go programs and proves properties of them.

**`cmd/load-balancer/main.go`** is a least-loaded request dispatcher. A pool of workers is kept as a binary min-heap ordered by each worker's `pending` count. Every worker stores its own heap slot in `idx`. `dispatch` pops the least-loaded worker, queues the request on it, counts the request as pending and pushes the worker back. `completed` decrements a worker's count and re-seats the worker through `heap.Remove` and `heap.Push`.

`load_balancer.dfy` (module `LoadBalancer`) models the program as follows:
- `Worker`, `Pool` and `LoadBalancer` are classes whose fields the methods update in place.
- The `Pool` methods `Swap`, `Push` and `Pop` are the program's `heap.Interface`.
- The sift-up and sift-down loops of Go's `container/heap` are modelled as `Up` and `Down`, and the package's entry points as `HeapPush`, `HeapPop` and `HeapRemove`.
- Each worker's work channel is modelled as the sequence of requests queued to it, in order.
- `balance`'s `select` loop is a method that runs over a given sequence of arrival and completion events.

**`cmd/get-til/main.go`** turns the "# わかったこと" (TIL) section of a markdown post into Cosense lines.
- `extractTILSection` writes `- <title>`. It then writes every line of the TIL section that is neither blank nor the TIL heading itself, indented by two spaces. The section runs from the first exact TIL heading to the next other heading.
- `convertToConsenseFormat` gives each line a tab indent level. The level comes from the length of the line's leading run of `-` and space characters, compared with the previous line's run. Each output line is that many tabs followed by the trimmed line with its links rewritten.
- `mdLinkToCosenseLink` rewrites every markdown link `[text](link)` into `[text link]`. It matches with the non-greedy pattern `\[(.*?)\]\((.*?)\)`. A link that does not start with `http` gets the team URL in front.
- `pipeline` feeds the extractor's output to the converter.

`get_til.dfy` (module `GetTil`) models these functions over input already split into lines (`seq<string>`):
- The two scanner loops are methods with loop invariants. Each is proved equal to a specification function: `Extract` and `Convert`.
- The regular expression is modelled by hand, as `TextEnd`, `LinkEnd`, `MatchAt` and `NextMatch`. Lemmas prove that these pick the leftmost match with the shortest groups, which is what Go's leftmost-first, non-greedy semantics require.
- `ReplaceAllStringFunc` is `ReplaceFrom`: it resumes the search right after each match and does not rescan the replacement.

## Model

| member | source | states |
|---|---|---|
| LoadBalancer.Worker.constructor | cmd/load-balancer/main.go:106 | A new worker has an empty work queue and no pending requests. |
| LoadBalancer.Pool.constructor | cmd/load-balancer/main.go:104 | `make(Pool, 0, workerSize)`: the pool starts empty, so trivially every worker in it sits in its own slot. |
| LoadBalancer.Pool.Len | cmd/load-balancer/main.go:160 | The pool's length, which bounds every recorded `idx` while each worker sits in its own slot, so `heap.Remove(&b.pool, w.idx)` gets a slot in range. |
| LoadBalancer.Pool.Less | cmd/load-balancer/main.go:162-164 | Slot `i` is less than slot `j` exactly when its worker has fewer pending requests. |
| LoadBalancer.Pool.Swap | cmd/load-balancer/main.go:166-171 | Exchanges two slots and records each worker's new slot in `idx`. The keys are swapped, the pool stays the same multiset, and distinct workers that sit in their own slots stay that way. |
| LoadBalancer.Pool.Push | cmd/load-balancer/main.go:173-178 | Appends the worker and sets its `idx` to the old length. |
| LoadBalancer.Pool.Pop | cmd/load-balancer/main.go:180-187 | Removes and returns the last worker and sets its `idx` to -1. The rest of the pool is unchanged and the removed worker is no longer in it. |
| LoadBalancer.Up | cmd/load-balancer/main.go:132-138 | `container/heap`'s sift-up, called by `heap.Push` (line 132) and by `heap.Remove` (line 138, through `Resettle`): when only the slot `j0` may be below its parent, the first `n` slots end heap-ordered. It only permutes the pool, leaves slots from `n` on untouched and keeps every `idx` equal to its slot. |
| LoadBalancer.Down | cmd/load-balancer/main.go:129 | `container/heap`'s sift-down, called by `heap.Pop` and `heap.Remove`: when only slot `i0` may be above its children, the first `n` slots end heap-ordered if it moved. If it did not move, the pool is unchanged. It only permutes the pool and keeps the slot records. |
| LoadBalancer.HeapPush | cmd/load-balancer/main.go:132 | `heap.Push`: adds one worker and keeps the heap order and the slot records. |
| LoadBalancer.HeapPop | cmd/load-balancer/main.go:129 | `heap.Pop`: returns the root, removes exactly that worker and keeps the heap order. |
| LoadBalancer.Resettle | cmd/load-balancer/main.go:138 | The step of `heap.Remove` after the last slot has moved into slot `i`: sift down, and sift up if nothing moved. When only slot `i` may be out of place, the first `n` slots end heap-ordered, the pool is only permuted, slots from `n` on are untouched and every `idx` still equals its slot. |
| LoadBalancer.HeapRemove | cmd/load-balancer/main.go:138 | `heap.Remove(i)`, when only slot `i` may be out of place: returns the worker at `i`, removes exactly it and restores the heap order. |
| LoadBalancer.Enqueue | cmd/load-balancer/main.go:130-131 | The request goes to the back of the worker's queue, its pending count rises by one, and the roster's total rises by one. |
| LoadBalancer.Release | cmd/load-balancer/main.go:137 | `w.pending--`: the count drops by one, only `w`'s key in the pool changes, and the roster's total drops by one. |
| LoadBalancer.Reseat | cmd/load-balancer/main.go:138-139 | `heap.Remove(w.idx)` then `heap.Push(w)`: after one worker's count changed, the pool is heap-ordered again with the same workers. |
| LoadBalancer.AddWorker | cmd/load-balancer/main.go:106-107 | A new idle worker with an empty queue is pushed onto the heap, which keeps its order and grows by exactly that worker. |
| LoadBalancer.LoadBalancer.SeatOf | cmd/load-balancer/main.go:166-178 | Between events every worker sits in the slot its `idx` records, as `Swap` and `Push` maintain. |
| LoadBalancer.RootIsLeastLoaded | cmd/load-balancer/main.go:128-129 | In a heap-ordered pool the root has the fewest pending requests of all workers. |
| LoadBalancer.LoadBalancer.constructor | cmd/load-balancer/main.go:102-111 | `newLoadBalancer`: the pool holds `WorkerSize` (10) distinct fresh workers, all idle with empty queues. The pool is heap-ordered and every worker's `idx` is its slot. |
| LoadBalancer.LoadBalancer.Dispatch | cmd/load-balancer/main.go:128-133 | The chosen worker had the fewest pending requests. Only its count rises, by one, and the request is appended to the back of its queue. The pool keeps the same workers and stays a heap, and the total pending count rises by one. |
| LoadBalancer.LoadBalancer.Completed | cmd/load-balancer/main.go:136-140 | Only `w`'s count drops, by one. The pool keeps the same workers and stays a heap, and the total drops by one. No count goes negative when `w` had a pending request. |
| LoadBalancer.LoadBalancer.FirstRound | cmd/load-balancer/main.go:128-133 | `WorkerSize` dispatches into an idle pool leave every worker with exactly one pending request. |
| LoadBalancer.LoadBalancer.Balance | cmd/load-balancer/main.go:115-125 | Over any sequence of arrivals and completions the pool stays a valid heap. The total pending count changes by arrivals minus completions. |
| LoadBalancer.BitsTotal | cmd/load-balancer/main.go:128-133 | The counting step of `FirstRound`: for any workers with counts of 0 or 1, the total is 0 exactly when all are 0, and the number of workers `\|s\|` exactly when all are 1. |
| LoadBalancer.StartedBalancer | cmd/load-balancer/main.go:42 | `newLoadBalancer()` then `WorkerSize` requests: the caller gets a valid balancer whose workers are fresh, and every worker has exactly one pending request. |
| GetTil.ExtractTILSection | cmd/get-til/main.go:130-160 | The collecting loop produces exactly `Extract(lines, title)`. |
| GetTil.Extract | cmd/get-til/main.go:138 | The first line written is always `- ` followed by the title. |
| GetTil.Emitted | cmd/get-til/main.go:139-157 | Every line after the title line is `"  " + lines[j]`. Here `j` comes after the first exact TIL heading, `lines[j]` is neither blank nor the heading, and no other heading lies between the two. |
| GetTil.KeptSource | cmd/get-til/main.go:155-157 | Each written section line is an input line of the range that is neither blank nor the TIL heading, prefixed by two spaces. Over an arbitrary range, another heading such as `# x` is written too; the section bound is what keeps it out. |
| GetTil.KeptConcat | cmd/get-til/main.go:139-157 | Written lines keep their input order: the kept lines of two adjacent ranges are concatenated. |
| GetTil.NoHeading | cmd/get-til/main.go:138-158 | Without an exact TIL heading only the title line is written. |
| GetTil.StopsForGood | cmd/get-til/main.go:146-150 | Once another heading has ended the section, anything appended to the input changes nothing. |
| GetTil.InsertIgnored | cmd/get-til/main.go:142-154 | Inserting a blank line anywhere, or a repeated TIL heading after the first, leaves the output unchanged. |
| GetTil.InsertBeforeHeading | cmd/get-til/main.go:146-154 | Inserting any line other than the TIL heading before the first TIL heading leaves the output unchanged. That includes other headings, because nothing is collected yet. |
| GetTil.BlankIsNoHeading | cmd/get-til/main.go:142-146 | A blank line is never a heading, so skipping it never changes the collect state. |
| GetTil.TextEndSpec | cmd/get-til/main.go:194 | The lazy text group from `i` ends at the first `](` with no newline before it, and it is absent when there is none. |
| GetTil.LinkEndSpec | cmd/get-til/main.go:194 | The lazy link group ends at the first `)` with no newline before it, and it is absent when there is none. |
| GetTil.MatchAtSpec | cmd/get-til/main.go:194 | The match found at `p` is a match of the pattern. Among all matches at `p` it has the shortest text group and then the shortest link group. When none is found, none exists. |
| GetTil.NextMatchSpec | cmd/get-til/main.go:196 | The match used is the leftmost one from the search position, and it is absent only when nothing matches from there. |
| GetTil.ReplaceFrom | cmd/get-til/main.go:196 | `ReplaceAllStringFunc` from position `i`: a stretch of the line with no `[` is copied unchanged. |
| GetTil.MdLinkToCosenseLink | cmd/get-til/main.go:193-209 | A line without `[` comes back unchanged. |
| GetTil.CosenseLink | cmd/get-til/main.go:199-204 | `fmt.Sprintf("[%s %s]", text, link)`: a bracketed link whose length is the text, the link, three characters, and the team URL's length when the link does not start with `http`. The text is followed by a space. |
| GetTil.CosenseLinkParts | cmd/get-til/main.go:199-204 | The text and the link can be read back from their places in the Cosense link; a link not starting with `http` is read back with the team URL in front. |
| GetTil.Callback | cmd/get-til/main.go:196-207 | The callback is only ever given more than two characters. It returns a bracketed `[...]` link, never the match itself. |
| GetTil.Rematch | cmd/get-til/main.go:197 | Running the pattern again on the matched text finds the whole of it, with the same groups. |
| GetTil.CallbackAgrees | cmd/get-til/main.go:196-206 | The callback gets a match of at least 4 characters, so `len(match) > 2` always holds. It returns the replacement built from the match's own groups. |
| GetTil.Unchanged | cmd/get-til/main.go:193-209 | A line comes back unchanged exactly when the pattern matches nowhere in it. |
| GetTil.ReplacedAt | cmd/get-til/main.go:204 | In the output, the `](` of a link becomes the space between text and link. |
| GetTil.OneLink | cmd/get-til/main.go:193-209 | When a line's only `[` opens one well-formed link, the result is the part before it, the Cosense link of its groups, and the part after it. |
| GetTil.SingleLink | cmd/get-til/main.go:199-204 | `pre[text](link)post` becomes `pre[text link]post`. A link not starting with `http` gets the team URL prepended. |
| GetTil.LeadRun | cmd/get-til/main.go:171-172 | The run is all `-` and spaces, and the next character is neither. |
| GetTil.TrimLeft | cmd/get-til/main.go:171-174 | `len(line) - len(strings.TrimLeft(line, "- "))`, the converter's space count, is the length of the leading run. |
| GetTil.TrimLeftIdempotent | cmd/get-til/main.go:171 | The line is its leading run followed by the trimmed line. The trimmed line starts with no `-` or space, so trimming it again changes nothing. |
| GetTil.LeadRunAfter | cmd/get-til/main.go:171-174 | Putting `-` and spaces in front lengthens the run by that many and is trimmed away. |
| GetTil.NextLevel | cmd/get-til/main.go:176-184 | An unindented line resets the level to 1. Otherwise the level moves by the sign of the change in run length: up one, down one, or unchanged. |
| GetTil.Level | cmd/get-til/main.go:167-184 | An unindented line is at level 1, and the level of line `i` lies between `-i` and `i + 2`, because it moves by at most one per line. |
| GetTil.ConvertToConsenseFormat | cmd/get-til/main.go:162-191 | The loop over `prevLine` and `indentLevel` produces `Convert(lines, teamUrl)`: one line per input line, in order. Each is `Level` tabs followed by the trimmed line with its links rewritten. |
| GetTil.LevelDrift | cmd/get-til/main.go:167-184 | An indented line's level is 1 plus the number of rises minus falls of the run since the last unindented line. The count starts from "- TIL" at level 1. |
| GetTil.LevelPrefix | cmd/get-til/main.go:169-188 | A line's level depends only on the lines up to it. |
| GetTil.ConvertPrefix | cmd/get-til/main.go:169-188 | Converting the first `n` lines gives the first `n` output lines. |
| GetTil.RisingRuns | cmd/get-til/main.go:176-184 | When no indented line has a shorter run than the line before it, every level is at least 1. |
| GetTil.NegativeLevel | cmd/get-til/main.go:176-186 | The level is not clamped. For `" a"`, `"   b"`, `"  c"`, `" d"` the last level is -1, where `strings.Repeat` would panic. |
| GetTil.Pipeline | cmd/get-til/main.go:211-224 | The pipeline's output is `Convert(Extract(lines, title), teamUrl)`. |
| GetTil.PipelineNegative | cmd/get-til/main.go:211-224 | Through the pipeline, the TIL section `    - a`, `  - b`, `- c`, `x` with title `t` gets levels 1, 2, 1, 0 and -1, where `strings.Repeat` would panic. |
| GetTil.PipelineTitle | cmd/get-til/main.go:138 | The first pipeline line is the title, trimmed and with its links rewritten. It is one tab deep, or two when the title starts with `-` or a space. |

## Left out

- Concurrency in the load balancer is not modelled: the request clients (`createRequest`, with random sleeps), the worker goroutines (`Worker.do`, computing `math.Sin`) and the channels. A request carries only its `data`.
- The `select` loop of `balance` is modelled as a given sequence of arrival and completion events. The `done` channel's and work channel's capacities are not modelled, so a send never blocks.
- `LoadBalancer.print` is left out: it writes to stdout and computes a floating-point mean and variance.
- The `container/heap` source is not part of this repository. `Up`, `Down`, `HeapPush`, `HeapPop` and `HeapRemove` follow that package's published algorithms. In `HeapRemove` the last slot is moved into slot `i`, followed by a sift-down and, when nothing moved, a sift-up.
- LoadBalancer.LoadBalancer.Completed: does not require `w.pending > 0`, because the program does not check it. Non-negativity is promised only when `w` had a pending request.
- LoadBalancer.LoadBalancer.Balance: the events may include a completion for a worker with nothing pending, which the program never sends, since `done <- w` follows a request that `dispatch` had already counted. So non-negative counts are promised only for a single `Completed` call where `w.pending > 0`, never over a whole `Balance` run.
- LoadBalancer.Worker: nothing takes a request off `work`, because `Worker.do` is left out. So `work` is the history of requests queued to the worker, not the channel's current contents, and a request stays there after `Completed`.
- LoadBalancer.LoadBalancer.Dispatch: the chosen worker is returned as a ghost value, because the program does not return it.
- `main`, `requestEsa` and `buildRequestURL` are left out. They cover environment variables, HTTP, JSON decoding, file creation, `net/url` encoding and Go's random map order.
- `bufio.Scanner` is left out. The model takes lines already split, so it does not cover the scanner's dropping of a trailing `\r`, its 64 KiB token limit or its read errors. Write errors are not modelled either.
- Strings are sequences of characters (code points). Invalid UTF-8 and the byte-level behaviour of `strings` and `regexp` on it are not modelled. `TrimLeft` strips only the ASCII characters `-` and space, so its byte count equals its character count.
- GetTil.ConvertToConsenseFormat: requires every indent level to be non-negative, because `strings.Repeat` panics on a negative count. `NegativeLevel` shows that input can break this.
- GetTil.Pipeline: requires every indent level of the extracted lines to be non-negative, because the converter would panic otherwise. `PipelineNegative` shows a realistic TIL section that breaks this. The `io.Pipe`, the goroutine and `CloseWithError` are left out. The model feeds the extractor's lines straight to the converter. The re-splitting at newlines would differ only for a title containing `\n` or a line ending in `\r`.
- GetTil.ReplaceFrom: the replacement text is built from the groups of the match in the original line, not by running the pattern again on the matched text. `CallbackAgrees` proves the two give the same result.
- GetTil.SingleLink: covered only for lines with one `[`. Lines with several links are covered through `ReplaceFrom`, `NextMatchSpec` and `CallbackAgrees`.
