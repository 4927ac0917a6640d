# Guarded stack

A Dafny model of `Stack<Type>` from `Stack.h`: a last-in-first-out container
that guards itself against memory corruption. Its one buffer holds a left
canary, `capacity` element slots and a right canary. It grows by doubling, and
it keeps a checksum of its contents that is recomputed after every mutation.
The integrity check `ok()` holds when all of the following hold:

- `size <= capacity`;
- the left canary points at the stack itself;
- the right canary equals `0xBEDABEDA`;
- the stored checksum equals a freshly computed one.

The project has three modules:

- `ContentChecksum` (`checksum.dfy`) holds the checksum. Each step
  multiplies the accumulator by 29 and reduces it modulo 1000000007. It then
  adds the element's hash in unsigned 64-bit arithmetic, which can wrap, and
  reduces again. The result is the accumulator exclusive-or the size.
  `size_t` values are the integers below 2^64 (`U64`). Exclusive-or is defined
  bit by bit on integers (`Xor`). The element hash (`std::hash<Type>`) is an
  arbitrary function `T -> U64`, passed in at construction.
- `Growth` (`growth.dfy`) holds the size and capacity arithmetic on values:
  the constructors, `tryToExpand`, `push` and `pop`. It also runs whole
  sequences of pushes and pops, where a pop on an empty stack aborts.
- `GuardedStack` (`stack.dfy`) holds the class `Stack<T>`. It has an element
  array whose length is the capacity, `size`, `hashSum`, and the two canaries
  as fields. The left canary is an `object?` that must be the stack itself.
  The right canary is a `bv32`. `Ok()` mirrors `ok()` clause by clause.
  The canary getters `getCanaryLeft` and `getCanaryRight` (Stack.h:88-96)
  are the reads of the fields `canaryLeft` and `canaryRight` in `Ok()`.
  `Structural()` is its size/capacity part plus "at least one slot".
  `Valid()` is both together. `push` and `pop` are methods that change the
  fields in place. `calculateHashSum` is a method whose loop is proved
  against the pure `Checksum` function.

The source's `push` and `pop` never consult `ok()`. They recompute the
checksum from whatever the buffer holds, so a `push` after an element was
overwritten in place makes the checksum agree with the corrupted contents.
The model states this: the ensures of `Push` and `Pop` give the new checksum
unconditionally. They promise `Valid()` afterwards only when it held before.

## Model

| member | source | states |
|---|---|---|
| `ContentChecksum.Step` | Stack.h:81-82 | one fold step always leaves the accumulator below 1000000007 |
| `ContentChecksum.Fold` | Stack.h:77-84 | the accumulator after folding any contents is below 1000000007 |
| `ContentChecksum.SizeT` | Stack.h:85 | converting to `size_t` gives a value below 2^64, and leaves values already in range unchanged |
| `ContentChecksum.XorBelow` | Stack.h:85 | the exclusive-or of two k-bit values is a k-bit value, so the checksum fits in `size_t` |
| `ContentChecksum.XorCancel` | Stack.h:85 | exclusive-or with the same value twice is the identity |
| `ContentChecksum.XorCommutes` | Stack.h:85 | exclusive-or does not depend on operand order |
| `ContentChecksum.XorHighBits` | Stack.h:85 | exclusive-or with a value below 2^k leaves the bits from k upwards unchanged |
| `ContentChecksum.FoldSnoc` | Stack.h:79-83 | folding one more element on top applies one more step to the previous accumulator |
| `ContentChecksum.Checksum` | Stack.h:75-86 | the checksum exclusive-or the size gives back the fold; the empty stack's checksum is 0; bits 30 and up of the checksum are those of the size, because the fold is below 2^30 |
| `ContentChecksum.SameSizeChecksumIff` | Stack.h:85 | for equal sizes, the checksums are equal if and only if the folds are equal |
| `ContentChecksum.SizeChangeDetected` | Stack.h:85 | contents with the same fold but different sizes always have different checksums |
| `ContentChecksum.StepExact` | Stack.h:81-82 | when the hash is at most 2^64 - 1000000007, the 64-bit addition cannot wrap and the step is `(acc*29 + h) mod 1000000007` |
| `ContentChecksum.FoldIsPolynomial` | Stack.h:75-84 | when no addition wraps, the fold is the base-29 polynomial of the element hashes, reduced modulo 1000000007 |
| `ContentChecksum.TopReplacementDetected` | Stack.h:75-86 | replacing the top element by one whose hash differs modulo 1000000007 (with no wrap) always changes the checksum |
| `ContentChecksum.PolyAppend` | Stack.h:79-83 | the polynomial of `a + q` is that of `a` times 29^|q| plus that of `q`: elements folded after a given one multiply its term by 29 each |
| `ContentChecksum.MulByMulInvertible` | Stack.h:81 | 29 is invertible modulo 1000000007: multiplying by 29 maps a value to a multiple of 1000000007 if and only if it already was one |
| `ContentChecksum.ElementReplacementDetected` | Stack.h:75-86 | replacing the element at any index by one whose hash differs modulo 1000000007 (with no wrap in either fold) always changes the checksum |
| `GuardedStack.Stack.Ok` | Stack.h:99-107 | a stack that passes the integrity check has `size <= capacity`, and its stored checksum exclusive-or its size gives back the fold of its live elements; bits 30 and up of the stored checksum are those of the size |
| `Growth.PushKeepsShape` | Stack.h:62-72 | with `size <= capacity` and at least one slot, push keeps `size <= capacity` and adds one element; the capacity never shrinks; it changes exactly when `size == capacity`, and then it doubles |
| `Growth.PopKeepsShape` | Stack.h:217-223 | pop on a non-empty stack keeps `size <= capacity`, decrements the size and keeps the capacity |
| `Growth.ConstructedShapesOk` | Stack.h:130-145 | the default constructor gives size 0 and capacity 1; the fill constructor with n >= 1 gives size == capacity == n; both satisfy `size <= capacity` with at least one slot |
| `Growth.EmptyFillThenPushBreaksShape` | Stack.h:140-145 | the fill constructor with n = 0 passes the size check, but the following push leaves size 1 and capacity 0 |
| `Growth.RunKeepsShape` | Stack.h:209-223 | any sequence of pushes and pops from a sound shape either aborts on a pop of an empty stack, or ends with `size <= capacity` and a capacity no smaller than at the start |
| `Growth.PushesThenPops` | Stack.h:209-223 | n pushes followed by n pops never abort, restore the size, and never shrink the capacity |
| `GuardedStack.TopIndexInRangeIff` | Stack.h:225-228 | `top()` indexes at `size - 1` in `size_t`; the bounds check passes if and only if the stack is non-empty, and on an empty stack the index wraps to 2^64 - 1 |
| `GuardedStack.Stack.constructor` | Stack.h:130-138 | default construction gives size 0, capacity 1, checksum 0, left canary = the stack, right canary = `0xBEDABEDA`, and `Valid()` |
| `GuardedStack.Stack.Fill` | Stack.h:140-155 | for n >= 1: size == capacity == n, every element equal to `elem`, the checksum of those contents, and `Valid()` |
| `GuardedStack.Stack.Copy` | Stack.h:157-168 | copying a stack that passes `ok()` gives a new buffer with the same capacity, contents and checksum, own canaries, and `ok()` |
| `GuardedStack.Stack.MakeCanaries` | Stack.h:39-43 | the left canary becomes the stack itself and the right canary becomes `0xBEDABEDA` |
| `GuardedStack.Stack.ElementAt` | Stack.h:33-37 | access is allowed only for `0 <= i < size`, and returns the i-th live element |
| `GuardedStack.Stack.Top` | Stack.h:225-228 | on a non-empty stack, returns the last live element |
| `GuardedStack.Stack.CalculateHashSum` | Stack.h:75-86 | the loop returns exactly `Checksum(hash, contents)`, with invariant "accumulator = fold of the first i elements" |
| `GuardedStack.Stack.TryToExpand` | Stack.h:62-73 | when full, the buffer becomes a fresh one of twice the capacity, the live elements are kept, and both canaries are re-placed; otherwise nothing changes; the checksum is untouched |
| `GuardedStack.Stack.Push` | Stack.h:209-215 | size + 1; contents = old contents + [x]; `Top() == x`; capacity as in `Growth.PushShape`; the checksum is recomputed; canaries are re-placed only on growth; `Valid()` before implies `Valid()` after |
| `GuardedStack.Stack.Pop` | Stack.h:217-223 | needs size > 0; size - 1; capacity, buffer and canaries unchanged; remaining elements unchanged; the checksum is recomputed; `Valid()` before implies `Valid()` after |

## Findings

| source | as written | input that shows it | evidently intended | confidence | as-written member | corrected member |
|---|---|---|---|---|---|---|
| Stack.h:140-145 | the fill constructor sets `capacity_ = size`, so `Stack(0, elem)` has capacity 0; `tryToExpand` then "doubles" 0 to 0 (Stack.h:70) and `push` writes past the buffer | `Stack(0, e)` followed by `push(e)`: size 1, capacity 0, `ok()` fails | a constructed stack always has room to grow, as the default constructor's capacity 1 does | not executed | `Growth.EmptyFillThenPushBreaksShape` | `GuardedStack.Stack.Fill` |

`GuardedStack.Stack.Fill` requires `n >= 1` and establishes `Valid()`, which
includes "at least one slot". `Push` keeps that (`Growth.PushKeepsShape`).

## Left out

- `dump` (Stack.h:109-128) writes to standard output only.
- The destructor and `destroyElements` (Stack.h:56-60, 230-237) only release memory.
- The element destructor call in `pop` (Stack.h:220) is not modelled. A popped slot keeps its value, which is outside `Contents()` and the checksum.
- The copy assignment, move constructor and move assignment (Stack.h:170-207) are not modelled.
  - The copy assignment does not compile: it calls the non-const `ok()` on a `const Stack&` (Stack.h:172).
  - The move constructor does not compile: it reads `that.haser_` (Stack.h:186).
  - The move assignment compiles, but it is wrong on every call (Stack.h:196-207).
    - It takes over `that`'s buffer (Stack.h:199), so both stacks share one buffer. `copyElementsFromAnotherStack` (Stack.h:49-53, called at Stack.h:204) then sets each shared slot to `Type()` and copies it onto itself, so every element becomes `Type()` while `hash_sum_` keeps the old checksum. The old buffer leaks.
    - On self-assignment, `that.bytes_ = nullptr` (Stack.h:206) also clears the stack's own buffer.
    - Control reaches the closing brace with no `return`, which is undefined behaviour on every call, whether or not the result is used.
- `GuardedStack.Stack.Copy` models the copy constructor as intended. As written the copy constructor does not compile: it reads `that.hash_sum` (Stack.h:160) and calls the non-const `ok()` on a const reference (Stack.h:164).
- `copyElementsFromAnotherStack` is folded into `GuardedStack.Stack.Copy`'s loop.
- ProtectionDumper.h is a diagnostic scope guard that nothing in Stack.h uses, so its entry and exit checks are not modelled. The methods require only `Structural()`. `Push` and `Pop` ensure `old(Valid()) ==> Valid()`: they keep the integrity check but do not demand it.
- main.cpp is a demo with no logic.
- The byte layout (`new char[]`, `realloc`, `memset`, `reinterpret_cast`) is not modelled. The array plus two canary fields stands in for it. So out-of-bounds writes into canary bytes cannot be expressed; only the field values are modelled.
- Allocation failure (the assertion at Stack.h:67) is not modelled. Allocation always succeeds.
- The `this &&` and `!(size_ > 0 && !bytes_)` clauses of `ok()` always hold. In the model the stack and its buffer are never null, because the move constructor, which clears the pointer, is not modelled.
- `size_` is an unbounded `nat`. Its `size_t` overflow, which memory makes unreachable, is not modelled. Where `size_` meets `size_t` arithmetic (`^ size_`, `size_ - 1`), the truncation is written out with `SizeT`.
- The right canary constant is stored in an `int` and compared with the unsigned literal `0xBEDABEDA`. Both conversions give back the same 32 bits, so it is modelled as `bv32`.
- The hash function is arbitrary, so `std::hash` internals are not modelled. Detection of corruption is proved for three cases: a size change with an equal fold; and replacing one element, at the top or at any index, by one whose hash differs modulo 1000000007, when no 64-bit addition wraps. Changes to several elements at once can cancel out modulo 1000000007, so for them the checksum gives no guarantee and none is stated.
- `GuardedStack.Stack.Push`: requires `size <= capacity` and at least one slot. Outside these the source writes beyond its buffer, which is undefined behaviour and is not modelled.
- `GuardedStack.Stack.Pop`: requires `size <= capacity` besides `size > 0`. Outside it the source reads beyond its buffer, which is not modelled.
- A shadow copy of the size, a switch that turns the diagnostics off, and invariant checks on entry to and exit from each operation are not part of Stack.h, so they are not modelled. In particular, `push` and `pop` do not check `ok()`.
