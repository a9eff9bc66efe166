# Production build configuration: manifest callback and rule predicates

The repository's production build is a webpack configuration
(`config/webpack.prod.js`). Most of it is option objects for third-party
plugins. This project models the parts of it that are the repository's own
logic:

- the `generate` callback given to the manifest plugin. It folds the emitted
  file records (`{name, path}`) into the caller's `seed` dictionary in place,
  one `manifest[file.name] = file.path` per record. A missing seed means
  nothing is written. It also keeps the `index` entry point's files that do
  not end in `.map`, and returns `{files, entryPoints}`;
- the predicates that choose which modules and files a rule applies to. These
  are the `react` cache group's `test(module)`, the `vendor` cache group's
  `/[\\/]node_modules[\\/]/`, the compression plugin's `/\.js$|\.json$|\.css/`,
  and the minifier's `/\.(tsx?|jsx?)$/` test and `/node_module/` exclude. Each
  regular expression is restated as a string predicate.

Files:

- `wrappers.dfy`: `Option`. `None` stands for JavaScript's `undefined`.
- `strings.dfy`: `endsWith` and `includes`. `includes` is a left-to-right
  scan, proved equal to "occurs at some index". `StartsWith` is the check the
  scan makes at each position.
- `manifest.dfy`: the file records and the specification of the fold
  (`Folded`). It also holds the source-map filter (`DropSourceMaps`), the
  optional entry-point list (`EntryPointFiles`), the seed object
  (`ManifestObject`, a class whose `entries` map the fold updates in place)
  and the `Generate` method, which runs the fold as a loop.
- `rules.dfy`: the cache-group, compression and minifier predicates, with
  lemmas relating them to each other.

The seed is a nullable `ManifestObject`. `null` covers both `null` and
`undefined`, the falsy seeds the callback guards against. `Generate` returns
the seed object itself, not a copy, as the callback does. When there is no
`index` entry point, the returned `entryPoints` is absent (`undefined` in the
code), not an empty list.

## Model

| member | source | states |
|---|---|---|
| `Manifest.Generate` | config/webpack.prod.js:45-58 | The returned `files` is the seed object itself. A present seed ends up holding the fold of the records over its old contents. A null seed is returned untouched. `entryPoints` is the filtered `index` list, or absent. |
| `Manifest.Folded` | config/webpack.prod.js:46-49 | After the fold, the keys are exactly the seed's keys plus every record's name. |
| `Manifest.FoldedLastWins` | config/webpack.prod.js:46-49 | If no later record has the same name, the record's name maps to its path. So when names repeat, the last record in list order wins. |
| `Manifest.FoldedKeepsSeed` | config/webpack.prod.js:46-49 | A seed key that no record names keeps its seed value. |
| `Manifest.FoldedAppend` | config/webpack.prod.js:46-49 | Folding `a + b` equals folding `b` over the result of folding `a`: the reduce is a left fold in list order. |
| `Manifest.DropSourceMaps` | config/webpack.prod.js:50-52 | No kept name ends in `.map`. Every name not ending in `.map` is kept exactly as many times as it occurs. |
| `Manifest.DropSourceMapsAppend` | config/webpack.prod.js:50-52 | Filtering `a + b` gives the filtered `a` followed by the filtered `b`, so the relative order is kept. |
| `Manifest.DropSourceMapsKeepsClean` | config/webpack.prod.js:50-52 | A list with no `.map` name passes through the filter unchanged. |
| `Manifest.DropSourceMapsIdempotent` | config/webpack.prod.js:50-52 | Filtering twice gives the same list as filtering once. |
| `Manifest.EntryPointFiles` | config/webpack.prod.js:50-52 | The result is present exactly when an `index` entry point exists. It is then the `index` list with the `.map` names filtered out, in order and with multiplicity (the properties proved about `DropSourceMaps`): it lists only `index` files that do not end in `.map`, and includes every such file. |
| `Strings.IncludesIff` | config/webpack.prod.js:113 | `includes` holds exactly when the substring occurs at some index of the string. |
| `Rules.VendorTestIff` | config/webpack.prod.js:106 | The left-to-right search for `[\\/]node_modules[\\/]` succeeds exactly when some position has a separator, then `node_modules`, then a separator. |
| `Rules.VendorSegment` | config/webpack.prod.js:106 | Every path that contains `node_modules` with a `/` or `\` on each side is a vendor path. |
| `Rules.ReactTestIff` | config/webpack.prod.js:111-115 | The `react` test holds exactly when a resource is present and contains `node_modules/react`. The non-empty guard adds nothing. |
| `Rules.ReactClaimsReactDom` | config/webpack.prod.js:113 | Every resource containing `node_modules/react-dom` is claimed by the `react` group, because the test is a substring test. |
| `Rules.ReactMissesBackslashPaths` | config/webpack.prod.js:113 | A resource with no `/` in it is never claimed by the `react` group. |
| `Rules.BackslashPathsSplit` | config/webpack.prod.js:106-115 | A backslash-separated path under `node_modules` is claimed by `vendor` and never by `react`. |
| `Rules.ReactWithLeadingSeparatorIsVendor` | config/webpack.prod.js:106-115 | A resource containing `/node_modules/react` or `\node_modules/react` is claimed by both `react` and `vendor`. |
| `Rules.ReactWithoutLeadingSeparatorIsNotVendor` | config/webpack.prod.js:106-115 | `node_modules/react`, with no separator in front, is claimed by `react` but not by `vendor`. |
| `Rules.SourceMapCompressedIffCss` | config/webpack.prod.js:66 | A name ending in `.map` passes the compression test exactly when it contains `.css`, because that alternative is not anchored. |
| `Rules.CompressionOfMaps` | config/webpack.prod.js:66 | `a.css.map` passes the compression test and `a.js.map` does not. |
| `Rules.TerserTestIff` | config/webpack.prod.js:80 | The minifier's test holds exactly when the name is some stem, a dot, and one of `ts`, `tsx`, `js`, `jsx`. |
| `Rules.TerserNamesCompressed` | config/webpack.prod.js:66-80 | A small observation: a name the minifier's test accepts never ends in `.json`, so compression takes it exactly when it ends in `.js` or contains `.css`. |
| `Rules.VendorIsTerserExcluded` | config/webpack.prod.js:82-106 | Every string the `vendor` test accepts also matches the `/node_module/` pattern. This is a relation between two string predicates, not a claim about which chunks are minified. |
| `Rules.ReactIsTerserExcluded` | config/webpack.prod.js:82-115 | Every resource the `react` test accepts also matches the `/node_module/` pattern, as a string. |

## Left out

- Merging with the common configuration (lines 2, 15, 20, 137): `config/webpack.common.js` is not part of this model, and `webpack-merge` is a foreign library.
- Resolving `PUBLIC_PATH` and `SRC_PATH` (lines 17-18) is Node's filesystem path resolution. So is the minifier's `include: [SRC_PATH]` (line 81). How the minifier combines `test`, `include` and `exclude` happens inside terser-webpack-plugin. Only the `test` and `exclude` patterns are modelled, each on its own.
- Asset copying and its glob options (lines 28-41): library behaviour and filesystem I/O.
- CSS extraction, minification of JavaScript, CSS and HTML, and worker parallelism (lines 23-27, 78-98): foreign transforms.
- Compression itself (lines 63-70). The gzip algorithm, the size threshold and the ratio check run inside the compression plugin. `threshold` and `minRatio` appear only as the named constants `Rules.CompressionThreshold` and `Rules.CompressionMinRatio`. The duplicated `algorithm` key is ordinary object-literal overwriting: the later key wins.
- webpack's chunk splitting (lines 100-126): cache-group priorities, `enforce`, `chunks`, `minChunks`, `maxInitialRequests` and the runtime chunk. Only the two cache-group `test` predicates are modelled. Which group wins a module both claim is decided by webpack.
- The `externals` table (lines 129-135): a constant lookup that webpack applies.
- The bundle analyser (line 61), and writing `asset-manifest.json` to disk (line 44).
- A general bundling pipeline (module graph, chunk partitioning, content hashing): the repository only configures one and does not implement it. The model follows the code, which takes the emitted file list as given.
- `Manifest.Folded`: a `map` has no key order. The order in which a JavaScript object's keys are later serialised is not modelled. Neither are special property names such as `__proto__`.
- `Manifest.Generate`: only object seeds and the missing seeds `null` and `undefined` are modelled. A primitive seed is not. A truthy one such as a number passes the guard, and its property assignments are silently lost. A falsy one (`0`, `""`, `false`) fails the guard and comes back as itself. The model can only return `null` for a missing seed.
- `Rules.ReactTest`: when the resource is missing or empty, the JavaScript test returns the falsy resource value itself rather than `false`. The model keeps only truthiness, which is all webpack reads.
- The minifier matches its `test`, `include` and `exclude` patterns (lines 80-82) against emitted asset names, such as `static/js/[id]_vendors.js` (line 107) and `react.[contenthash].js` (line 117). The cache-group tests (lines 106, 111-115) see module resources instead. So `Rules.VendorIsTerserExcluded` and `Rules.ReactIsTerserExcluded` relate two string predicates only. They say nothing about which chunks get minified.
- `Rules.VendorTest`: webpack applies a cache group's regular expression to the module name it derives (normally the resource path). That derivation is not modelled: the predicate is stated over the string it receives.
