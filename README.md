# Shared 1 KiB buffer of the pa2 character devices

Two Linux kernel modules share one buffer. `pa2_in` defines the globals
`message` (1024 bytes), `message_length` and the mutex `mutexlock`, and it
exports all three. It serves `write`: that call appends the caller's bytes
at `message_length` and silently drops whatever does not fit. `pa2_out`
imports the same globals and serves `read`: that call hands out the first
bytes, lowers `message_length` by the amount read, and then zeroes as many
leading bytes of `message` as the *new* length. Nothing is shifted down: a
read of `k` of `L` bytes zeroes bytes `[0, L-k)`. When fewer than half are
read, this also wipes the unread bytes `[k, L-k)`. The unread bytes at or
past the new length stay in place, where no later read reaches them.
Either way the next read sees only zeros.

This project models that buffer and its two operations, and proves what
they do.

- `SharedState` holds the constants, the state as a value (`State`: the
  1024 bytes and the length) and the outcome of a call (`Transferred(n)` or
  `Busy` for `-EBUSY`).
- `Input` and `Output` define `write` and `read` as functions on that state.
  Their contracts give the exact count returned, the exact bytes stored or
  delivered, and what stays unchanged.
- `Device.SharedBuffer` is the imperative form. It is a class over an
  `array<bv8>` of 1024 bytes and a `length` field. Its constructor is the
  module initialisation and its `Write` and `Read` methods update the array
  in place. Each method's `ensures` equates the result and the new state
  with the function of the old state.
- `Properties` relates the two: the round trip, the effect of the zeroing in
  `read`, the no-rollback behaviour on copy faults, and the invariants of
  an arbitrary sequence of calls.

Modelling choices:

- Each call runs atomically.
- Failure of `mutex_lock_interruptible` is a boolean input `interrupted`.
  As in the source, it is consulted only after the early return for a zero
  amount.
- The caller's memory is a parameter. For `write` it is `data`, the prefix
  of the user buffer that the copy actually fetches, while `len` is the
  requested length. `copy_from_user` pads with zero what it does not fetch;
  that is the documented contract of that kernel function. For `read`, `writable` is how
  many bytes of the user buffer can be written, and `delivered` is what
  reaches the caller. In both operations the returned count and the new
  length ignore the copy's error count, as the source does.
- The `read` defect is reproduced as written. `PartialReadLosesRemainder`
  states its consequence.

## Model

| member | source | states |
|---|---|---|
| `SharedState.Initial` | pa2_in.c:30-31 | the initial state is valid, has length 0, and every byte of `message` is zero |
| `SharedState.Memset` | pa2_out.c:163 | zeroing `n` leading bytes makes bytes `[0, n)` zero and leaves bytes `[n, end)` as they were |
| `Input.WriteAmount` | pa2_in.c:146-151 | the amount written is `min(len, BUFFER_SIZE - message_length)` and never overfills the buffer |
| `Input.CopyFromUser` | pa2_in.c:167 | the `n` destination bytes starting at `at` receive the fetched caller bytes and zero after them, the last `Uncopied(data, n)` of them (the error count) being zero; every other byte is unchanged |
| `Input.Uncopied` | pa2_in.c:167 | the error count is at most the amount requested, and it is zero exactly when the copy fetches the whole request |
| `Input.Write` | pa2_in.c:144-184 | keeps `length <= BUFFER_SIZE`; returns `Busy` exactly when the lock fails and the amount is non-zero; otherwise returns `min(len, free space)`; on `Busy` or 0 the state is unchanged; on success the length grows by the count, bytes `[old_len, new_len)` hold the caller's bytes (zero past the fetched part), and every byte outside that range is unchanged |
| `Output.ReadAmount` | pa2_out.c:136-142 | the amount read is `min(len, message_length)` |
| `Output.CopyToUser` | pa2_out.c:159 | the delivered bytes are the first `min(n, writable)` bytes of `message` |
| `Output.Read` | pa2_out.c:134-179 | keeps the state valid; returns `Busy` exactly when the lock fails and the amount is non-zero; otherwise returns `min(len, message_length)`; on `Busy` or 0 the state is unchanged and nothing is delivered; on success the delivered bytes are the old `message[0, k)` (as far as the caller's buffer can take), the length drops by exactly `k`, bytes `[0, new_len)` are zero when `k > 0`, and bytes `[new_len, 1024)` are unchanged |
| `Device.SharedBuffer.Snapshot` | pa2_in.c:30-31 | the array and the length, read as a `State`, satisfy the buffer invariant |
| `Device.SharedBuffer.constructor` | pa2_in.c:99-100 | a fresh 1024-byte array, all zero, and length 0: the state `Initial` |
| `Device.SharedBuffer.Write` | pa2_in.c:144-184 | the in-place update of the array and the length, and the returned outcome, are exactly those of `Input.Write` on the old state; the invariant is kept |
| `Device.SharedBuffer.Read` | pa2_out.c:134-179 | the in-place update, the outcome and the bytes copied out are exactly those of `Output.Read` on the old state; the invariant is kept |
| `Properties.RoundTrip` | pa2_out.c:159-160 | on an empty buffer, `write(s)` of at most 1024 bytes followed by a `read` of as many returns that count twice, delivers `s` and leaves the length at 0 (with the append at pa2_in.c:167-168) |
| `Properties.DrainKeepsBytes` | pa2_out.c:160-163 | reading everything (also from an empty buffer) leaves the length at 0 and every byte of `message` unchanged, because the zeroing then has length 0 |
| `Properties.PartialReadLosesRemainder` | pa2_out.c:159-163 | after a read that leaves bytes unread, the next read of any size delivers only zero bytes |
| `Properties.PartialReadUnreadBytes` | pa2_out.c:160-163 | after reading `len` of `L` held bytes (0 < len < L), the unread bytes `[len, L-len)` are zero and the unread bytes `[L-len, L)` keep their old values |
| `Properties.WriteIgnoresCopyFaults` | pa2_in.c:167-183 | the count returned by `write` and the new length do not depend on how much of the caller's memory is fetched, so not on the error count either: there is no rollback after a fault |
| `Properties.Apply` | pa2_in.c:159-168 | one call of either device keeps the invariant, changes the length by exactly the bytes written or minus the bytes read, and changes nothing when it returns `Busy` |
| `Properties.Final` | pa2_out.c:138-160 | after any sequence of calls the state still satisfies `length <= BUFFER_SIZE` |
| `Properties.Conservation` | pa2_out.c:150-160 | after any sequence of atomic calls, the final length is the initial length plus all bytes written and minus all bytes read, and that sum stays within `0 .. 1024` (with the length update at pa2_in.c:168) |
| `Properties.OverfullWrite` | pa2_in.c:147-151 | writing 1074 bytes into an empty buffer stores 1024 and returns 1024 |
| `Properties.ShortRead` | pa2_out.c:138-142 | asking for 500 bytes when 10 are held returns 10 |
| `Properties.FullAndEmpty` | pa2_in.c:153-157 | a full buffer accepts 0 bytes and an empty one delivers 0, with the state unchanged, whether or not the lock would fail (and pa2_out.c:144-148) |
| `Properties.FillAndDrainScenario` | pa2_in.c:144-184 | from start-up: 1024 bytes of 'A' are written, one more byte is not, a read of 1024 returns all the 'A's and empties the buffer, and one more read returns 0 |

## Left out

- Module registration and teardown are OS plumbing and are not modelled. That covers `register_chrdev`, `class_create`, `device_create`, `device_destroy`, `class_unregister`, `class_destroy`, `mutex_destroy` and the repeated `unregister_chrdev` at pa2_in.c:116,118.
- All `printk` output is diagnostic only and is not modelled.
- The `open` and `close` hooks and their `num_opens` counters do not touch the buffer and are not modelled.
- The static `error_count` variables are only printed, so they are not modelled; the count itself is `Input.Uncopied`.
- The mutex and thread interleavings are not modelled: each call is atomic, and lock failure is the input `interrupted`. Both operations compute the truncated amount from `message_length` before they take the lock (pa2_in.c:147, pa2_out.c:138). A racing call can change the length in between, and a sequential model cannot express that race.
- The internals of `copy_from_user` and `copy_to_user` are not modelled. The caller's memory is the fetched prefix `data` for `write` and a writable count for `read`. Either real copy may stop earlier than the first inaccessible byte; since `data` and `writable` are arbitrary, the model covers any such stopping point.
- Device.SharedBuffer.Read: `delivered` is only the bytes that reached the caller. The rest of the caller's buffer is not modelled.
- The `offset` argument of both operations is unused by the source and not modelled.
- The numeric value of `-EBUSY` is not modelled; the outcome `Busy` stands for it.
- Widths: `len` and `message_length` are `size_t` and the result is `ssize_t`. Every quantity involved is at most 1024 or is only compared, so they are modelled as unbounded naturals.
