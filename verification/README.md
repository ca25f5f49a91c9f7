# Verified model of the audio/video signal code and its Xenomai containers

The programs in `code/` sample audio, find the strongest frequency of each window with an
in-place FFT, record WAV files, filter camera pictures, and lean on three small pieces of
the Xenomai headers: a sequence lock, intrusive circular lists, and AVL-tree queries. This
project models those algorithms and proves what they are for.

| file | subject |
|---|---|
| `Complex`, `Sums`, `Dft` | exact complex arithmetic; the DFT as a plain sum; the radix-2 split |
| `Fft`, `FftBounds` | the strided ping-pong recursion on two arrays; where it stays in bounds |
| `Spectrum`, `Conservation` | orthogonality, inversion, Parseval, and what follows about the root |
| `Peak`, `Silence` | what the strongest bin depends on; the windows in which no bin is heard |
| `Treatment` | one full window of the treatment task, and the frequency it reports |
| `Tones`, `Analysis`, `Noise` | windows as sums of tones; which tone is reported, also after rounding |
| `Seqlock` | readers and writers of the sequence lock as interleaved atomic steps |
| `PrivateList`, `LstLib` | pointer-level circular lists; counted lists with back pointers |
| `AvlSearch` | the search loop and the nearest/first/last queries on ordered trees |
| `WavFormat`, `WavFile` | header layout and the reader/writer under short and failing I/O |
| `Sobel` | the edge filter, its bound and its symmetries |
| `Grayscale` | the three pixel conversions and how they fit together |
| `Words`, `Options` | machine words; the option type |

How the model reads the code:

- Complex numbers are pairs of exact reals. The twiddle `exp(-I*pi*i/n)` is `w^(i/2)` for a
  root `w`, of which only `w^(n/2) == -1` (`HalfTurn`) is assumed. That `w` lies on the unit
  circle, has period n and has cancelling power sums is derived from it.
- A C pointer into an array (`out + step`) is the array with an offset. `Residue(i, step)` is
  `i` modulo `step`.
- A `NODE` of `lstLib.h` is the `pvholder` at its address followed by the list pointer, so one
  class `Holder` stands for both and `container_of` is the identity.
- Each step of `Seqlock` is one access to shared memory, taken in any order that each reader's
  and writer's own code allows; `ticks`, `history`, `loadedAt` and `accepted` only record.
- `size_t` and `ssize_t` are 32 bits wide, as on the ARM board the headers are configured for.
  `off_t` is a signed 32-bit long there, since code/libxenomai/usr/xenomai/bin/xeno-config:15-18 names
  arm-buildroot-linux-gnueabihf and does not widen it: an offset of 2^31 or more arrives
  negative, `lseek` fails and leaves the position alone, and the code does not look.
- The file offset, short reads and writes, and I/O errors are explicit. A write that takes
  nothing may happen any finite number of times. A word on the stack that a short read does
  not fill keeps an arbitrary value. `failed` and `cut` count the calls that went wrong or moved
  fewer bytes than asked.

What the code does differently from what its text says, proved here:

- The reported frequency is a quarter of the reported bin's, because
  `FFT_BUFFER_SIZE_LEFT_CANAL` expands to `8192 / 2` without parentheses. The two agree
  exactly for windows whose left channel repeats after two samples, where nothing is heard
  and bin 0 is reported (`ReportedFrequency`, `SilentIffPeriodTwo`); a single click is a
  window on which they differ (`ClickMisreported`). All other results speak of the bin.
- The comment at the AVL search macro promises the leftmost of equal nodes for `AVL_LEFT`. The
  search stops there exactly when that node has no left child, and otherwise on the node before
  it (`FirstMatchStop`, mirrored by `LastMatchStop`); `LeftSearchLeavesMatch` is a two-node tree
  on which it passes the match. `avl_search_first`/`last` make up for it: they return the
  first/last match exactly when there is a match.
- Without a match `avl_search_first`/`last` answer with a stranger, except when the tree is
  empty, the key lies beyond all keys, or it lies beyond all but the outermost key and that
  node has no inner child (`SearchFirstMissing`, `SearchLastMissing`). `SearchFirstStranger`
  and `SearchLastStranger` are two-node trees.
- `pvlist_join` of an empty list links the source's head into the destination (`Join`).
- `parse_wav_header` does not notice a failed read: -1 is compared as an unsigned number, and
  whatever the header variable held is judged instead (`ParseHeader`).
- `append_wav_data` records its samples exactly when the seek offset is below 2^31 and the new
  size below 2^32 (`AppendExact`). From 2^31 up to the wrap at 2^32 the oldest samples are overwritten and the call
  still reports success (`AppendOverwrites`).
- The sequence lock accepts a read pass exactly when the increments since its token was loaded
  are a multiple of 2^32 (`AcceptedIffWholeWraps`). So it is safe for fewer than 2^31 writes
  during one pass, and not for exactly 2^31 (`TornAtTheWrap`).

## Model

| member | source | states |
|---|---|---|
| Fft.Fft | code/utils/fft_utils.c:19-27 | for every power-of-two length (and 0), every input and every root, the first array ends up holding the sums over j of x[j]*w^(jk); nothing behind index n changes |
| Fft.FftStep | code/utils/fft_utils.c:3-17 | if both arrays agree on a residue class, the first one ends up holding the transform of that class with root w^step, and neither array changes outside the class |
| Fft.Combine | code/utils/fft_utils.c:10-15 | the loop leaves e[k]+w^(step*k)*d[k] and e[k]-w^(step*k)*d[k] in the two halves of the class, for the even and odd views e, d of the other array |
| Dft.Butterfly | code/utils/fft_utils.c:12-14 | two half-size bins determine bins k and k+n/2 of the plain sum |
| Fft.CombinedIsTransform | code/utils/fft_utils.c:7-15 | transforms of the even and odd samples, combined by the loop, are the transform of all samples |
| Fft.ClassSplit | code/utils/fft_utils.c:7-8 | the two recursive calls work on disjoint halves of the caller's residue class |
| FftBounds.InsideIffPowerOfTwo | code/utils/fft_utils.c:3-17 | all accesses of the recursion stay below n exactly when n is a power of two |
| Dft.QuarterTurn | code/utils/fft_utils.c:12 | the root the code uses for n = 4, -I, has w^(n/2) = -1 |
| Spectrum.RootSum | code/utils/fft_utils.c:12 | the powers of w^m over a window sum to n when m is 0 or n, and to 0 otherwise |
| Spectrum.RootModulus | code/utils/fft_utils.c:12 | every power of a root with w^(n/2) = -1 has modulus one |
| Spectrum.TransformTwice | code/utils/fft_utils.c:3-27 | the transform of the transform is n times the window, mirrored: n*x[(n-j) mod n] |
| Spectrum.TransformInjective | code/utils/fft_utils.c:3-27 | two windows with the same spectrum are equal |
| Conservation.Parseval | code/utils/fft_utils.c:3-27 | the powers of all bins sum to n times the sum of the squared moduli of the samples |
| Conservation.StageEnergy | code/utils/fft_utils.c:10-15 | one butterfly stage doubles the energy of the two half spectra it combines |
| Treatment.ReportWindow | code/audio_setup.c:84-113 | on a full stereo window the task's buffer becomes the transform of the 4096 samples at the even places, the reported bin is the first of greatest power among bins 1..n/2-1 or 0 when all are silent, and the reported frequency is that bin's number times 48000/16384 |
| Treatment.LeftOfInterleaved | code/audio_setup.c:84-87 | when two channels alternate in the window, the samples that are heard are those of the first, whatever the second holds |
| Treatment.ReportedFrequency | code/audio_setup.c:14-15 | for every window the reported frequency is that of the reported bin exactly when the left channel has period two |
| Treatment.ClickMisreported | code/audio_setup.c:14-15 | a left channel of one nonzero sample and silence has bin 1 reported and not period two, whatever the right channel holds, so its frequency is wrong |
| Silence.SilentIffPeriodTwo | code/audio_setup.c:89-102 | bin 0 is reported exactly for the windows whose samples repeat after two places |
| Peak.PeakUnique | code/audio_setup.c:89-102 | at most one bin meets the report's specification |
| Peak.ConjSymmetry | code/audio_setup.c:84-91 | for real samples bin n-k is the conjugate of bin k |
| Peak.HalfScanSuffices | code/audio_setup.c:89-102 | scanning half the bins finds a bin at least as strong as every bin but 0 and n/2, and reports 0 exactly when all of those are silent |
| Peak.PeakIgnoresOffset | code/audio_setup.c:89-102 | adding a constant to all samples does not change the report |
| Peak.PeakIgnoresRotation | code/audio_setup.c:89-102 | rotating the window by any amount does not change the report |
| Peak.PeakIgnoresGain | code/audio_setup.c:89-102 | multiplying all samples by a nonzero number does not change the report |
| Tones.BinOfMix | code/audio_setup.c:84-95 | in a sum of tones and an alternation, bin k up to n/2 holds n times its own (conjugate) amplitude and nothing of the others |
| Tones.LoudestToneReported | code/audio_setup.c:84-102 | on any sum of tones, constant and alternation the report is the first loudest tone strictly between bins 0 and n/2 |
| Analysis.EveryWindowIsMix | code/audio_setup.c:84-102 | every real window of power-of-two length is such a sum, with the amplitudes read off its own spectrum |
| Tones.ToneReported | code/audio_setup.c:84-102 | a single tone at bin m over any constant and alternation is reported as m, and only as m |
| Noise.DisturbedToneReported | code/audio_setup.c:84-102 | it is still reported after any disturbance whose energy is below a quarter of n times the squared amplitude |
| Noise.RoundedToneReported | code/audio_setup.c:84-102 | it is still reported when each sample is off by at most e and the squared amplitude exceeds 4e^2 |
| Noise.SampledToneReported | code/audio_setup.c:84-102 | a full window whose left channel rounds a tone at bin m of squared amplitude above one to 16-bit samples is reported as m, and only as m, whatever its right channel |
| Noise.HearTone | code/audio_setup.c:84-113 | the task's computation on the interleaved samples of such a window ends with bin m |
| Seqlock.RunInv | code/libxenomai/usr/xenomai/include/cobalt/uapi/kernel/urw.h:60-111 | the invariant tying sequence, parity, published versions and every reader's pass holds after every run from a state that has it |
| Seqlock.OddExactlyWhileWriting | code/libxenomai/usr/xenomai/include/cobalt/uapi/kernel/urw.h:86-98 | in every reachable state the sequence is odd exactly while a writer is inside, and otherwise the fields are the last published value |
| Seqlock.AcceptedNeverTorn | code/libxenomai/usr/xenomai/include/cobalt/uapi/kernel/urw.h:60-107 | in every run, an accepted pass overlapped by fewer than 2^31 writes copied one published version, which was current from the token load to the recheck |
| Seqlock.SnapshotsNeverGoBack | code/libxenomai/usr/xenomai/include/cobalt/uapi/kernel/urw.h:60-107 | successive snapshots of one reader never go back in the history of published values |
| Seqlock.AcceptedIffWholeWraps | code/libxenomai/usr/xenomai/include/cobalt/uapi/kernel/urw.h:75-84 | in every reachable state a recheck accepts exactly when the increments since the token load are a multiple of 2^32 |
| Seqlock.AcceptedPassExact | code/libxenomai/usr/xenomai/include/cobalt/uapi/kernel/urw.h:60-107 | the writes overlapping an accepted pass are a multiple of 2^31, and with none of them the snapshot is the published version of that time |
| Seqlock.AcceptedIffUndisturbed | code/libxenomai/usr/xenomai/include/cobalt/uapi/kernel/urw.h:75-84 | short of the wrap a recheck accepts exactly when no writer step happened since the token load |
| Seqlock.UndisturbedPassSucceeds | code/libxenomai/usr/xenomai/include/cobalt/uapi/kernel/urw.h:60-107 | a pass that no writer step overlaps is accepted at its first recheck with a copy of the current version, whatever other readers do |
| Seqlock.TokenIffNoWriter | code/libxenomai/usr/xenomai/include/cobalt/uapi/kernel/urw.h:60-73 | in every reachable state an entering reader may ask for a token; it gets the current sequence exactly when no writer is inside, and otherwise nothing changes and it asks again |
| Seqlock.RejectedRestarts | code/libxenomai/usr/xenomai/include/cobalt/uapi/kernel/urw.h:75-81 | a recheck after anything but whole wraps accepts nothing and sends the reader back for a token |
| Seqlock.RejectedThenAccepted | code/libxenomai/usr/xenomai/include/cobalt/uapi/kernel/urw.h:60-107 | after a rejected pass, and whatever the other threads do until the reader gets a token, its next pass without a writer step is accepted and copies the version current at that time |
| Seqlock.TornAtTheWrap | code/libxenomai/usr/xenomai/include/cobalt/uapi/kernel/urw.h:75-98 | there is a run with exactly 2^31 writes during a pass in which a never-published snapshot is accepted |
| PrivateList.AttachAfter | code/libxenomai/usr/xenomai/include/boilerplate/private-list.h:47-54 | linking a holder behind a member yields the ring with the holder inserted there |
| PrivateList.Detach | code/libxenomai/usr/xenomai/include/boilerplate/private-list.h:56-60 | unlinking a member yields the ring without it and leaves its own pointers; a lone holder is unchanged |
| PrivateList.Relink | code/libxenomai/usr/xenomai/include/boilerplate/private-list.h:97-109 | the six pointer updates turn two rings into the joined ring and a lone source head; an empty source gets its head moved and is left unlinked from itself |
| PrivateList.Unhook | code/libxenomai/usr/xenomai/include/boilerplate/private-list.h:103-104 | the first two updates leave the source head alone on its ring and its members a chain from first to last |
| PrivateList.Hook | code/libxenomai/usr/xenomai/include/boilerplate/private-list.h:105-108 | the last four put that chain right behind the destination's head |
| PrivateList.PvList.constructor | code/libxenomai/usr/xenomai/include/boilerplate/private-list.h:62-65 | a new list is a ring of its head alone |
| PrivateList.PvList.IsEmpty | code/libxenomai/usr/xenomai/include/boilerplate/private-list.h:122-125 | true exactly for the list without members |
| PrivateList.PvList.Prepend | code/libxenomai/usr/xenomai/include/boilerplate/private-list.h:82-85 | the members become the holder followed by the old members |
| PrivateList.PvList.Append | code/libxenomai/usr/xenomai/include/boilerplate/private-list.h:87-90 | the members become the old members followed by the holder |
| PrivateList.PvList.Insert | code/libxenomai/usr/xenomai/include/boilerplate/private-list.h:92-95 | the holder lands right behind the given member |
| PrivateList.PvList.Remove | code/libxenomai/usr/xenomai/include/boilerplate/private-list.h:111-114 | exactly the given member leaves |
| PrivateList.PvList.RemoveAndReuse | code/libxenomai/usr/xenomai/include/boilerplate/private-list.h:111-114 | a removed member's pointers may be overwritten with anything: the list is intact without it |
| PrivateList.PvList.RemoveInit | code/libxenomai/usr/xenomai/include/boilerplate/private-list.h:116-120 | the member leaves and ends up alone on its own ring |
| PrivateList.RemoveFrom | code/libxenomai/usr/xenomai/include/boilerplate/private-list.h:111-114 | a holder leaves whatever list it is linked on, the rest in order; one on no list stays alone |
| PrivateList.PvList.Pop | code/libxenomai/usr/xenomai/include/boilerplate/private-list.h:127-132 | takes the first member; on an empty list answers the untouched head |
| PrivateList.PvList.Join | code/libxenomai/usr/xenomai/include/boilerplate/private-list.h:97-109 | a nonempty source moves, in order, in front of the destination and is left a valid empty list; an empty source has its head spliced in and is no list any more |
| PrivateList.PvList.ForEach | code/libxenomai/usr/xenomai/include/boilerplate/private-list.h:171-173 | visits every member once, in order, and stops |
| PrivateList.PvList.ForEachReverse | code/libxenomai/usr/xenomai/include/boilerplate/private-list.h:175-177 | visits every member once, in reverse order |
| PrivateList.PvList.ForEachSafe | code/libxenomai/usr/xenomai/include/boilerplate/private-list.h:179-183 | visits every member once although the body removes any of them and stores anything in their pointers, and leaves the others in order |
| PrivateList.KeptInOrder | code/libxenomai/usr/xenomai/include/boilerplate/private-list.h:179-183 | what that loop leaves of two lists in a row is what it leaves of each, and of one holder the holder itself unless it is to be removed |
| LstLib.LstList.constructor | code/libxenomai/usr/xenomai/include/vxworks/lstLib.h:40-44 | a new counted list is empty and valid |
| LstLib.LstList.Add | code/libxenomai/usr/xenomai/include/vxworks/lstLib.h:46-52 | appends; count and back pointers stay right |
| LstLib.LstList.Count | code/libxenomai/usr/xenomai/include/vxworks/lstLib.h:54-57 | the number of nodes on the list |
| LstLib.LstList.Delete | code/libxenomai/usr/xenomai/include/vxworks/lstLib.h:59-64 | the node leaves the list it is linked on, its back pointer is cleared and this list's count drops: right for this list's own nodes, a miscount of one for a node of another list or of none |
| LstLib.LstList.First | code/libxenomai/usr/xenomai/include/vxworks/lstLib.h:66-72 | the first node; NULL for a missing or empty list |
| LstLib.LstList.Get | code/libxenomai/usr/xenomai/include/vxworks/lstLib.h:74-86 | takes the first node off the list, or NULL |
| LstLib.LstList.Insert | code/libxenomai/usr/xenomai/include/vxworks/lstLib.h:88-99 | places the node behind the given one, or in front of all |
| LstLib.LstList.Last | code/libxenomai/usr/xenomai/include/vxworks/lstLib.h:101-107 | the last node; NULL for a missing or empty list |
| LstLib.LstList.Next | code/libxenomai/usr/xenomai/include/vxworks/lstLib.h:109-115 | the following node of the list the node names; NULL at the end or on no list |
| LstLib.LstList.Previous | code/libxenomai/usr/xenomai/include/vxworks/lstLib.h:117-123 | the preceding node; NULL at the front or on no list |
| LstLib.LstList.Walk | code/libxenomai/usr/xenomai/include/vxworks/lstLib.h:66-115 | lstFirst and then lstNext visit every node once, in order, and end in NULL |
| LstLib.LstList.FillAndDrain | code/libxenomai/usr/xenomai/include/vxworks/lstLib.h:46-86 | any number of lstAdd followed by lstGet until NULL returns the nodes first-in first-out and leaves an empty list |
| AvlSearch.Search | code/libxenomai/usr/xenomai/include/boilerplate/avl-inner.h:230-261 | the loop ends and leaves the holder and sign of the recursive descent; on an empty tree NULL and the sign 1 |
| AvlSearch.SearchLands | code/libxenomai/usr/xenomai/include/boilerplate/avl-inner.h:230-261 | on any tree the search ends on a match or on an in-order neighbour of the key's place, with the sign telling which side |
| AvlSearch.FirstMatchStop | code/libxenomai/usr/xenomai/include/boilerplate/avl-inner.h:244-261 | with a match, the search with AVL_LEFT stops on the first match exactly when that node has no left child, and otherwise on its predecessor |
| AvlSearch.LastMatchStop | code/libxenomai/usr/xenomai/include/boilerplate/avl-inner.h:244-261 | with a match, the search with AVL_RIGHT stops on the last match exactly when that node has no right child, and otherwise on its successor |
| AvlSearch.LeftSearchLeavesMatch | code/libxenomai/usr/xenomai/include/boilerplate/avl-inner.h:244-261 | a two-node tree with a match on which the search with AVL_LEFT stops on a non-match |
| AvlSearch.FindCorrect | code/libxenomai/usr/xenomai/include/boilerplate/avl-inner.h:376-389 | finds a match if there is one and NULL otherwise |
| AvlSearch.SearchLeCorrect | code/libxenomai/usr/xenomai/include/boilerplate/avl-inner.h:391-412 | a greatest element not above the key, NULL exactly when all are above |
| AvlSearch.SearchGeCorrect | code/libxenomai/usr/xenomai/include/boilerplate/avl-inner.h:391-420 | a least element not below the key, NULL exactly when all are below |
| AvlSearch.SearchFirstCorrect | code/libxenomai/usr/xenomai/include/boilerplate/avl-inner.h:422-446 | a match is returned exactly when one exists, and then it is the first in order |
| AvlSearch.SearchLastCorrect | code/libxenomai/usr/xenomai/include/boilerplate/avl-inner.h:422-454 | a match is returned exactly when one exists, and then it is the last in order |
| AvlSearch.SearchFirstMissing | code/libxenomai/usr/xenomai/include/boilerplate/avl-inner.h:422-446 | without a match NULL comes back exactly when the tree is empty, the key is above all keys, or it is above all but the last and the last node has no left child; otherwise a node above the key |
| AvlSearch.SearchLastMissing | code/libxenomai/usr/xenomai/include/boilerplate/avl-inner.h:422-454 | without a match NULL comes back exactly when the tree is empty, the key is below all keys, or it is below all but the first and the first node has no right child; otherwise a node below the key |
| AvlSearch.SearchFirstStranger | code/libxenomai/usr/xenomai/include/boilerplate/avl-inner.h:422-446 | a two-node tree on which avl_search_first answers a non-match |
| AvlSearch.SearchLastStranger | code/libxenomai/usr/xenomai/include/boilerplate/avl-inner.h:422-454 | a two-node tree on which avl_search_last answers a non-match |
| WavFormat.HeaderRoundTrip | code/utils/audio_utils.h:21-42 | a header written to a file is read back field by field, whatever follows it |
| WavFormat.FailedAppendKeepsSamples | code/utils/audio_utils.c:180-194 | an append that fails in its data loop leaves the header and the recorded samples unchanged |
| WavFormat.AppendAddsSamples | code/utils/audio_utils.c:175-206 | a successful append puts its data behind the recorded samples |
| WavFormat.AppendKeepsHeader | code/utils/audio_utils.c:175-206 | a successful append changes no header byte before the size field |
| WavFormat.AppendExact | code/utils/audio_utils.c:180-206 | on a file that ends with its samples, a nonempty append is recorded exactly when the seek offset is below 2^31 and the new size below 2^32 |
| WavFormat.AppendOverwrites | code/utils/audio_utils.c:180-206 | with a seek offset from 2^31 to 2^32 the data replaces the oldest samples while the size field counts it as added |
| WavFormat.ShortSizeSeen | code/utils/audio_utils.c:176-184 | on a file that ends before or inside its size field, the size worked with has the file's bytes where there are any and the stack's elsewhere |
| WavFile.WriteHeader | code/utils/audio_utils.c:78-114 | succeeds exactly when its write neither fails nor is cut short, and then the file starts with the 44 bytes RIFF, a size, WAVE, fmt, 16, PCM, 2 channels, 48000 Hz, 192000, 4, 16, data, 0, and goes on as before |
| WavFile.FreshHeaderBytes | code/utils/audio_utils.c:83-97 | the header laid over any file, byte by byte |
| WavFile.FreshHeaderIsEmpty | code/utils/audio_utils.c:78-114 | a freshly written header makes an empty recording, whatever the file held |
| WavFile.ParseHeader | code/utils/audio_utils.c:46-76 | a whole read succeeds exactly when bytes 0-3, 12-15 and 36-39 of the file are RIFF, fmt and data; a short read never; a failed read exactly when the caller's old header variable held the three identifiers |
| WavFile.AppendData | code/utils/audio_utils.c:168-209 | on any file, however short, and under any schedule of short writes, it succeeds exactly when no call fails; then the file is as after one whole append at the offset the size field (or what the stack held for it) leads to, and otherwise as after writing a prefix of the data with the size field untouched |
| WavFile.WriteData | code/utils/audio_utils.c:142-166 | under any schedule of short writes, it succeeds exactly when no write fails or takes nothing; then all samples stand at offset 44, and otherwise a prefix of them; nothing else changes |
| WavFile.CopyData | code/utils/audio_utils.c:116-140 | under any schedule of short reads, it succeeds exactly when no read fails and the file reaches far enough, and then delivers exactly the announced bytes from offset 44, the recorded samples |
| WavFile.AttemptsRecorded | code/utils/audio_utils.c:168-209 | after any list of successful and failed appends whose seeks and sizes fit, the recording is the old one followed by the successful data in order |
| WavFile.RecordAndRead | code/utils/audio_utils.c:46-209 | new header, appends, parsing and copying back all succeed exactly when no call fails and the header is written and read whole, and then return the concatenation of what was appended, unless a failed header read met a variable that already looked like a header |
| WavFile.WrittenDataReadBack | code/utils/audio_utils.c:116-166 | data written by write_wav_data is what copy_wav_data of that length finds |
| Sobel.ConvolutionGrayscale | code/utils/convolution.c:3-45 | for every width and height the output is the edge map of the input continued by black, and nothing behind it changes |
| Sobel.Gradients | code/utils/convolution.c:18-37 | the skipped-cell kernel loops compute the two reference gradients |
| Sobel.AllCells | code/utils/convolution.c:6-7 | the nine weighted cells equal a (1,2,1) smoothing differenced across the pixel, in each direction |
| Sobel.MagnitudeBound | code/utils/convolution.c:40 | the two absolute gradients sum to at most 1530 |
| Sobel.MagnitudeBoundTight | code/utils/convolution.c:40 | the bound is reached |
| Sobel.MagnitudeEven | code/utils/convolution.c:40-42 | the sum of the two absolute gradients is always even, so the least sum that counts as an edge is 126 |
| Sobel.CornerEdge | code/utils/convolution.c:31-42 | one lit pixel in a four-column picture makes its diagonal neighbour 220 from brightness 63 on and 50 below |
| Sobel.FlatPictureEdges | code/utils/convolution.c:28-42 | a flat picture has no edges inside, side edges exactly from brightness 32 on and corner edges exactly from 21 on |
| Sobel.EdgesOfTransposed | code/utils/convolution.c:6-43 | filtering commutes with exchanging rows and columns |
| Sobel.EdgesOfMirroredX | code/utils/convolution.c:6-43 | filtering commutes with mirroring left to right |
| Sobel.EdgesOfMirroredY | code/utils/convolution.c:6-43 | filtering commutes with mirroring top to bottom |
| Sobel.EdgesIgnoreAffineTone | code/utils/convolution.c:6-43 | away from the border, the negative and a uniformly brightened picture have the same edges |
| Grayscale.RgbaToGrayscale32 | code/utils/grayscale.c:7-24 | the three colour bytes of every pixel become their mean; fourth bytes and whatever follows stay, also when both images share their data |
| Grayscale.RgbaToGrayscale8 | code/utils/grayscale.c:26-40 | the buffer becomes one mean per pixel, for any stride from three up, also in place |
| Grayscale.GrayscaleToRgba | code/utils/grayscale.c:42-50 | the three colour bytes of every pixel become its grey value and all other bytes stay |
| Grayscale.GreyOfPixel | code/utils/grayscale.c:29-36 | the grey value of the pixel in column u of row v is the mean of its three colour bytes, rounded down |
| Grayscale.PaintOfPixel | code/utils/grayscale.c:14-19 | painting sets the three colour bytes of the pixel in column u of row v and leaves its other bytes |
| Grayscale.EveryPixel | code/utils/grayscale.c:44 | the pixels converted are those of all rows and columns, and no others |
| Grayscale.GreysOfPainted | code/utils/grayscale.c:26-50 | reading the grey values back from a picture painted with them gives them unchanged |
| Grayscale.PaintedUnique | code/utils/grayscale.c:7-50 | the grey values determine the painted picture byte for byte |
| Grayscale.BothWays | code/utils/grayscale.c:7-50 | converting directly, or to one byte per pixel and back, leaves the same picture |

## Left out

- Floating-point rounding in the FFT and the power computation (`cexpf`, `crealf`): exact reals are used.
- 32-bit overflow of the FFT's and the pictures' loop variables: window lengths and picture sizes are far below 2^30.
- The accumulation of messages into a window (code/audio_setup.c:75-83), which advances a 16-bit pointer by a byte count: results start from a full window.
- Task creation, queues, events and shutdown in `main.c`, `audio_setup.c` and `video_setup.c`: the library behind them is not part of this model.
- `io_utils.c` and `video_utils.c`: device registers and tables.
- `map_volume`, time and handle helpers: they would only add easy members.
- AVL insertion, deletion and rebalancing, and the body of `avl_inorder`: not part of this model; `Inorder` is the in-order neighbour. Trees are values with integer keys, since the queries change nothing.
- The sequence lock's functions as single methods: their retry loop waits for other threads, so they appear as atomic steps. Memory barriers are taken to give sequentially consistent steps, and writers are serialized by the caller, as the header demands.
- `lstFree`, which leaves stale back pointers, `lstExtract`, `lstNth`, `lstNStep`, `lstFind` and `lstConcat`, whose bodies are not part of this model.
- AppendData: the 4-byte read and write of the size field are cut short by nothing but the end of the file.
- ForEachSafe: a body that adds members or removes ones other than the current is not modelled; the macro does not allow the latter for the next member.
- `shared-list.h`, `shavl`: the same algorithms with offsets for pointers.
